# SARS-CoV-2 variant designation tree — lineage parents and tree accumulation

This project models the core of `main.py` in the SARS-CoV-2 variant
designation tree tool, and proves properties of that model. Each designated
lineage (its designation date, its Pango name, its partial name and its
unaliased name) gets a parent code. The parent is its partial name with the
last dot-segment removed, for example `BA.1.2` → `BA.1`. A name without a dot
has no parent. The lineages are then added one by one to a tree dictionary:

- A lineage without a parent overwrites the top-level `id`, `data` and
  `parent` fields.
- Every other lineage is appended to one flat `children` table under the
  keys 0, 1, 2, …. The table is created on the first such append.

Files:

- `options.dfy` — `Options.Option`, standing for Python's `None`-or-value.
- `names.dfy` — module `Names`. `Split` and `Join` model `str.split('.')` and
  `".".join(...)`, empty pieces included. `Parent` models `Lineage.parent`.
  The lemmas prove the split/join round trips, give a characterisation of
  `Parent` that does not use split and join, and show that taking the parent
  shortens a code and removes exactly one dot. So repeatedly taking the
  parent ends after as many steps as the code has dots.
- `lineages.dfy` — module `Lineages`:
  - the `Lineage` record and its construction;
  - the tree as a value (`Tree`), with `Insert`, the specification of one
    `add_to_tree` call, and `Build`, the tree after a sequence of insertions;
  - the well-formedness invariant `Valid`, proved to hold for every
    reachable tree;
  - class `LineageTree`, which holds the tree state that `add_to_tree`
    updates in place. `AddToTree` is proved to turn the state into
    `Insert(old state, lineage)`, and `GetTree` returns the current state;
  - `BuildTree`, the loop that adds every lineage in order.

The parent is derived from the `partial` name (main.py:25). The `children`
table is flat: every lineage with a parent goes into the one top-level table,
whatever its `parent` field says.

## Model

| member | source | states |
|---|---|---|
| `Names.Split` | main.py:33 | `split('.')` always gives at least one piece, and no piece contains a dot |
| `Names.Join` | main.py:33 | `".".join` of one or more pieces starts with the first piece, and joining two or more pieces puts a dot in the result; `JoinSplit` and `SplitJoin` make it the inverse of `Split` |
| `Names.LastSegment` | main.py:33 | the last piece of the split is the text after the final dot: a dot-free suffix of the code that is either the whole code or preceded by a dot |
| `Names.Parent` | main.py:30-34 | `Lineage.parent` is `None` exactly when the code has no dot; `ParentRoundTrip` and `ParentOfExtension` fix its value as the code up to its final dot |
| `Names.JoinSplit` | main.py:33 | joining the pieces of any code with dots gives back that code |
| `Names.SplitJoin` | main.py:33 | splitting a dot-join of one or more dot-free pieces gives back exactly those pieces |
| `Names.JoinLast` | main.py:33 | joining two or more pieces equals joining all but the last, then a dot, then the last piece |
| `Names.SplitCountsDots` | main.py:33 | a code splits into one more piece than it has dots |
| `Names.SplitDotted` | main.py:32-33 | a code that contains a dot splits into at least two pieces, so dropping the last piece leaves at least one |
| `Names.ParentNoneIffNoDot` | main.py:30-34 | the parent is `None` exactly when the code contains no dot, in both directions |
| `Names.ParentRoundTrip` | main.py:32-33 | for a dotted code, parent + "." + last segment rebuilds the code, and the last segment contains no dot (it is the text after the final dot) |
| `Names.ParentOfExtension` | main.py:32-33 | for any prefix `p` and dot-free tail `w`, the parent of `p + "." + w` is `p` and its last segment is `w`; with the round trip, this fixes the parent without using split or join |
| `Names.ParentPieces` | main.py:33 | the pieces of the parent of a dotted code are the code's pieces without the last one (the `[:-1]` slice) |
| `Names.ParentShrinks` | main.py:32-33 | the parent of a dotted code is strictly shorter, its pieces are the code's pieces minus the last, and it has exactly one dot fewer |
| `Names.Generations` | main.py:30-34 | repeatedly taking the parent terminates (the code gets shorter each time) and reaches `None` after exactly as many steps as the code has dots |
| `Lineages.NewLineage` | main.py:20-25 | a constructed lineage keeps its date, Pango, partial and unaliased names; its parent is `None` exactly when the partial name has no dot; otherwise parent + "." + last segment of the partial name is the partial name, and the parent is shorter |
| `Lineages.ParentFromPartialOnly` | main.py:20-25 | the parent of a constructed lineage is `Parent(partial)`, whatever its date, Pango and unaliased names |
| `Lineages.EmptyValid` | main.py:18 | the empty starting dictionary is a well-formed tree: no root, no `children` key |
| `Lineages.Insert` | main.py:36-62 | the value form of one `add_to_tree` call: it keeps the tree well formed, a root leaves `children` (present or absent) unchanged, and a non-root leaves the root unchanged and makes `children` exist; `InsertRoot`, `InsertChild`, `InsertValid` and `BuildShape` give its exact effect |
| `Lineages.InsertRoot` | main.py:38-46 | adding a lineage without a parent sets the top level to `id` = partial, `data` = lineage, `parent` = `None` (replacing any earlier root) and leaves `children`, present or absent, unchanged |
| `Lineages.InsertChild` | main.py:48-62 | adding a lineage with a parent to a well-formed tree creates `children` if absent, grows it by exactly one entry at key `n` (the old size) holding `id` = partial, `data` = lineage, `parent` = its parent, and keeps every earlier entry and the root unchanged |
| `Lineages.InsertValid` | main.py:36-62 | every insertion preserves well-formedness: the root has no parent, every child has one, `children` exists only when non-empty, and the child keys are exactly 0 .. size-1 |
| `Lineages.Build` | main.py:73-75 | the tree after adding a sequence of lineages in order to the empty tree is well formed and has at most one child per lineage added; `BuildShape` gives its exact contents |
| `Lineages.BuildShape` | main.py:36-62 | after any sequence of insertions into the empty tree: `children` exists if and only if some non-root was added; it has one key per non-root, keys 0 .. k-1, the k-th holding the k-th non-root in insertion order; the top level holds the last root added, or nothing if none was |
| `Lineages.LineageTree.constructor` | main.py:18 | a new tree is the empty dictionary, which is well formed |
| `Lineages.LineageTree.AddToTree` | main.py:36-62 | updates the tree in place to `Insert(old tree, lineage)` and keeps it well formed. A root replaces the top-level fields and leaves `children` alone. A non-root leaves the root alone and adds one child at key `n` (the old count); all earlier entries stay |
| `Lineages.LineageTree.GetTree` | main.py:64-66 | returns the current tree, which is well formed |
| `Lineages.BuildTree` | main.py:73-75 | adding each lineage of a sequence in order to a fresh tree gives `Build` of that sequence, whose shape `BuildShape` describes |

## Left out

- `storage.py` (`Storage`, `LineageTreeStorage`, `NextCladeLineagesStorage`, `LastUpdatedStorage`) is not part of this model. It only opens, reads and writes files and reads the clock.
- Reading `lineages.tsv` with pandas and iterating its rows (main.py:70-73) is I/O. `BuildTree` takes the already-constructed lineages as a sequence.
- `Encoder` and the `json.dumps` call (main.py:12-14, 78) are reflection-based serialisation, and the final `print` is output. They are not modelled.
- `Lineage.__repr__` (main.py:27-28) only formats a debug string. It is not modelled.
- `Lineages.LineageTree.GetTree`: Python returns the shared dictionary itself, so a caller's later changes would alias the tree. The model returns the tree's value and does not capture that aliasing.
- `Lineages.LineageTree`: the source keeps the tree in one dictionary shared by the whole `Lineage` class (main.py:18). The model gives each `LineageTree` instance its own tree, so separate builds do not share state.
- Key order of the top-level dictionary: Python dictionaries keep key insertion order. If a child is added before any root, `children` comes before `id`, `data` and `parent` in the dictionary `get_tree` returns, and so in the printed JSON. The model does not capture the key order of the top-level dictionary. The order of the child entries is captured by their keys 0, 1, 2, ….
- The `data` entry holds the lineage record as a value (`Lineage`), not as a Python object reference. Later mutation of a `Lineage` object through another reference is not modelled.
- The designation date is kept as an uninterpreted string. Python takes whatever value pandas yields for it.
- Python's dictionaries allow any keys and values. The model types the top-level fields and the `children` table (integer keys, `{id, data, parent}` entries), because `add_to_tree` is the only writer.
