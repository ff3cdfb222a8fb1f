/**
  Lineage records and the tree they are accumulated into.

  A tree holds at most one top-level (root) entry, overwritten by every
  lineage without a parent, and one flat `children` table that every
  lineage with a parent is appended to under the next free integer key.
  The table exists only once a first child has been added.
 */
module Lineages {
  import opened Options
  import Names

  /** One designated lineage. `parent` is derived from `partial`. */
  datatype Lineage = Lineage(
    designationDate: string,
    pango: string,
    partial: string,
    unaliased: string,
    parent: Option<string>)

  /** `Lineage(designation_date, pango, partial, unaliased)`. */
  function NewLineage(designationDate: string, pango: string, partial: string, unaliased: string): (l: Lineage)
    ensures l.designationDate == designationDate && l.pango == pango
    ensures l.partial == partial && l.unaliased == unaliased
    ensures l.parent.None? <==> Names.Separator !in partial
    ensures l.parent.Some? ==> l.parent.value + [Names.Separator] + Names.LastSegment(partial) == partial
    ensures l.parent.Some? ==> |l.parent.value| < |partial|
  {
    if Names.Separator in partial then
      Names.ParentRoundTrip(partial);
      Lineage(designationDate, pango, partial, unaliased, Names.Parent(partial))
    else
      Lineage(designationDate, pango, partial, unaliased, Names.Parent(partial))
  }

  /** The parent of a constructed lineage depends on its partial name only. */
  lemma ParentFromPartialOnly(d1: string, p1: string, u1: string, d2: string, p2: string, u2: string, partial: string)
    ensures NewLineage(d1, p1, partial, u1).parent == NewLineage(d2, p2, partial, u2).parent == Names.Parent(partial)
  {
  }

  /** An `{id, data, parent}` record of the tree. */
  datatype Entry = Entry(id: string, data: Lineage, parent: Option<string>)

  /**
    The tree as a value: the top-level `id`/`data`/`parent` fields when some
    root has been added, and the `children` table when that key exists.
   */
  datatype Tree = Tree(root: Option<Entry>, children: Option<map<nat, Entry>>)

  /** The tree before anything is added: an empty dictionary. */
  const Empty: Tree := Tree(None, None)

  /** The empty tree is well formed. */
  lemma EmptyValid()
    ensures Valid(Empty)
  {
  }

  /** The entry a root lineage writes at the top level. */
  function RootEntry(l: Lineage): Entry
  {
    Entry(l.partial, l, None)
  }

  /** The entry a non-root lineage appends to `children`. */
  function ChildEntry(l: Lineage): Entry
  {
    Entry(l.partial, l, l.parent)
  }

  /** The `children` table, empty while the key is absent. */
  function ChildrenOf(t: Tree): map<nat, Entry>
  {
    if t.children.Some? then t.children.value else map[]
  }

  /**
    What every reachable tree satisfies: the root entry has no parent, every
    child entry has one, the `children` key exists only with at least one
    entry, and the child keys are exactly 0 .. count-1.
   */
  ghost predicate Valid(t: Tree)
  {
    && (t.root.Some? ==> t.root.value.parent.None?)
    && (t.children.Some? ==> |t.children.value| > 0)
    && (forall k: nat :: k in ChildrenOf(t) <==> k < |ChildrenOf(t)|)
    && (forall k: nat :: k in ChildrenOf(t) ==> ChildrenOf(t)[k].parent.Some?)
  }

  /**
    The effect of `add_to_tree` on the tree: a root replaces the top-level
    fields and keeps `children`; any other lineage is stored in `children`
    under the key equal to the table's current size.
   */
  function Insert(t: Tree, l: Lineage): (r: Tree)
    ensures Valid(t) ==> Valid(r)
    ensures l.parent.None? ==> r.children == t.children
    ensures l.parent.Some? ==> r.root == t.root && r.children.Some?
  {
    if l.parent.None? then
      t.(root := Some(RootEntry(l)))
    else
      var c := ChildrenOf(t);
      t.(children := Some(c[|c| := ChildEntry(l)]))
  }

  /** Adding a root: last write wins on the top level, `children` untouched. */
  lemma InsertRoot(t: Tree, l: Lineage)
    requires l.parent.None?
    ensures Insert(t, l).root == Some(Entry(l.partial, l, None))
    ensures Insert(t, l).children == t.children
  {
  }

  /**
    Adding a non-root: the table gains exactly one entry, at key `n` where `n`
    is the old size, and every earlier entry and the root stay as they were.
   */
  lemma InsertChild(t: Tree, l: Lineage)
    requires Valid(t) && l.parent.Some?
    ensures var n := |ChildrenOf(t)|;
      && Insert(t, l).children.Some?
      && |ChildrenOf(Insert(t, l))| == n + 1
      && n in ChildrenOf(Insert(t, l))
      && ChildrenOf(Insert(t, l))[n] == Entry(l.partial, l, l.parent)
      && (forall k :: k in ChildrenOf(t) ==> k in ChildrenOf(Insert(t, l)) && ChildrenOf(Insert(t, l))[k] == ChildrenOf(t)[k])
      && Insert(t, l).root == t.root
  {
  }

  /** Every insertion keeps the tree well formed. */
  lemma InsertValid(t: Tree, l: Lineage)
    requires Valid(t)
    ensures Valid(Insert(t, l))
  {
  }

  /** The tree after adding `ls` in order to an empty one. */
  function Build(ls: seq<Lineage>): (r: Tree)
    ensures Valid(r)
    ensures |ChildrenOf(r)| <= |ls|
  {
    if |ls| == 0 then Empty else Insert(Build(ls[..|ls| - 1]), ls[|ls| - 1])
  }

  /** The lineages of `ls` that have a parent, in order. */
  function NonRoots(ls: seq<Lineage>): (r: seq<Lineage>)
    ensures |r| <= |ls|
    ensures forall i :: 0 <= i < |r| ==> r[i] in ls && r[i].parent.Some?
  {
    if |ls| == 0 then []
    else if ls[|ls| - 1].parent.Some? then NonRoots(ls[..|ls| - 1]) + [ls[|ls| - 1]]
    else NonRoots(ls[..|ls| - 1])
  }

  /** The last lineage of `ls` without a parent, if any. */
  function LastRoot(ls: seq<Lineage>): (r: Option<Lineage>)
    ensures r.Some? ==> r.value in ls && r.value.parent.None?
    ensures r.None? ==> forall i :: 0 <= i < |ls| ==> ls[i].parent.Some?
  {
    if |ls| == 0 then None
    else if ls[|ls| - 1].parent.None? then Some(ls[|ls| - 1])
    else LastRoot(ls[..|ls| - 1])
  }

  /**
    Over any sequence of insertions into an empty tree: the tree is well
    formed; the `children` key exists exactly when some non-root was added;
    the child keys are 0 .. k-1 for the k non-roots added, each holding the
    entry of the k-th non-root in insertion order; and the top level holds the
    last root added, or nothing if none was.
   */
  lemma {:induction false} BuildShape(ls: seq<Lineage>)
    ensures Valid(Build(ls))
    ensures Build(ls).children.Some? <==> |NonRoots(ls)| > 0
    ensures |ChildrenOf(Build(ls))| == |NonRoots(ls)|
    ensures forall k :: 0 <= k < |NonRoots(ls)| ==>
      k in ChildrenOf(Build(ls)) && ChildrenOf(Build(ls))[k] == ChildEntry(NonRoots(ls)[k])
    ensures Build(ls).root == if LastRoot(ls).Some? then Some(RootEntry(LastRoot(ls).value)) else None
  {
    if |ls| > 0 {
      var init, l := ls[..|ls| - 1], ls[|ls| - 1];
      BuildShape(init);
      InsertValid(Build(init), l);
      if l.parent.Some? {
        InsertChild(Build(init), l);
      }
    } else {
      EmptyValid();
    }
  }

  /**
    The tree that `add_to_tree` updates in place. The source keeps it in a
    single dictionary shared by the whole `Lineage` class; here each instance
    owns its own.
   */
  class LineageTree {
    /** The top-level `id`, `data` and `parent` fields, once a root was added. */
    var root: Option<Entry>
    /** The `children` table, absent until the first non-root is added. */
    var children: Option<map<nat, Entry>>

    function State(): Tree
      reads this
    {
      Tree(root, children)
    }

    ghost predicate Invariant()
      reads this
    {
      Valid(State())
    }

    constructor ()
      ensures Invariant()
      ensures State() == Empty
    {
      root := None;
      children := None;
      EmptyValid();
    }

    /** `Lineage.add_to_tree(lineage)`. */
    method AddToTree(l: Lineage)
      requires Invariant()
      modifies this
      ensures Invariant()
      ensures State() == Insert(old(State()), l)
      ensures l.parent.None? ==> root == Some(Entry(l.partial, l, None)) && children == old(children)
      ensures l.parent.Some? ==> root == old(root) && children.Some?
      ensures l.parent.Some? ==> var n := |old(ChildrenOf(State()))|;
        && |children.value| == n + 1
        && n in children.value && children.value[n] == Entry(l.partial, l, l.parent)
        && (forall k :: k in old(ChildrenOf(State())) ==> k in children.value && children.value[k] == old(ChildrenOf(State()))[k])
    {
      ghost var before := State();
      InsertValid(before, l);
      if l.parent.None? {
        root := Some(Entry(l.partial, l, None));
      } else if children.Some? {
        InsertChild(before, l);
        var count := |children.value|;
        children := Some(children.value[count := Entry(l.partial, l, l.parent)]);
      } else {
        InsertChild(before, l);
        children := Some(map[0 := Entry(l.partial, l, l.parent)]);
      }
    }

    /** `Lineage.get_tree()`. */
    method GetTree() returns (t: Tree)
      requires Invariant()
      ensures t == State() && Valid(t)
    {
      t := Tree(root, children);
    }
  }

  /**
    The insertion loop: each lineage of `ls`, in order, is added to one tree.
    The resulting tree is described completely by `BuildShape`.
   */
  method BuildTree(ls: seq<Lineage>) returns (tree: LineageTree)
    ensures fresh(tree) && tree.Invariant()
    ensures tree.State() == Build(ls)
  {
    tree := new LineageTree();
    for i := 0 to |ls|
      invariant tree.Invariant()
      invariant tree.State() == Build(ls[..i])
    {
      assert ls[..i + 1][..i] == ls[..i];
      tree.AddToTree(ls[i]);
    }
    assert ls[..|ls|] == ls;
  }
}
