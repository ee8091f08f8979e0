/** What an operation on the tree appends to the write-ahead log, and what replaying it yields. */
module Log {
  import opened Entries
  import opened Tree

  /** Page images and root changes. */
  datatype Change = PageWrite(id: PageId, page: Page) | MetaUpdate(root: PageId)

  function Apply(s: Store, c: Change): Store {
    if c.PageWrite? then s[c.id := c.page] else s
  }

  function Replay(s: Store, log: seq<Change>): Store
    decreases |log|
  {
    if log == [] then s else Apply(Replay(s, log[..|log| - 1]), log[|log| - 1])
  }

  function ReplayRoot(root: PageId, log: seq<Change>): PageId
    decreases |log|
  {
    if log == [] then root
    else if log[|log| - 1].MetaUpdate? then log[|log| - 1].root
    else ReplayRoot(root, log[..|log| - 1])
  }

  function Touched(log: seq<Change>): set<PageId> {
    set c | c in log && c.PageWrite? :: c.id
  }
}
