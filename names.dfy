/**
  Dot-delimited lineage codes such as `BA.1.2` and the derivation of a
  lineage's parent code: the code with its last dot-segment (and the dot in
  front of it) removed, or no parent at all when the code has no dot.
 */
module Names {
  import opened Options

  /** The separator between the segments of a lineage code. */
  const Separator: char := '.'

  /** Number of separators in `s`. */
  function Dots(s: string): nat
  {
    multiset(s)[Separator]
  }

  /**
    `s.split('.')`: the pieces of `s` between separators, left to right,
    empty pieces kept (so `".A"` gives `["", "A"]` and `""` gives `[""]`).
   */
  function Split(s: string): (parts: seq<string>)
    ensures |parts| >= 1
    ensures forall i :: 0 <= i < |parts| ==> Separator !in parts[i]
  {
    if |s| == 0 then [""]
    else
      var rest := Split(s[1..]);
      if s[0] == Separator then [""] + rest
      else [[s[0]] + rest[0]] + rest[1..]
  }

  /** `".".join(parts)`: the pieces with one separator between neighbours. */
  function Join(parts: seq<string>): (s: string)
    ensures |parts| > 0 ==> parts[0] <= s
    ensures |parts| > 1 ==> Separator in s
  {
    if |parts| == 0 then ""
    else if |parts| == 1 then parts[0]
    else parts[0] + [Separator] + Join(parts[1..])
  }

  /**
    The text after the final separator of `s` (all of `s` when it has none):
    a dot-free suffix of `s` that is either all of `s` or preceded by a
    separator.
   */
  function LastSegment(s: string): (r: string)
    ensures Separator !in r
    ensures |r| <= |s| && s[|s| - |r|..] == r
    ensures |r| < |s| ==> s[|s| - |r| - 1] == Separator
  {
    var parts := Split(s);
    JoinSplit(s);
    if |parts| >= 2 then
      JoinLast(parts);
      parts[|parts| - 1]
    else
      parts[0]
  }

  /**
    `Lineage.parent`: when the code contains a separator, every piece of its
    split except the last, joined again; otherwise no parent.
   */
  function Parent(lineage: string): (r: Option<string>)
    ensures r.None? <==> Separator !in lineage
  {
    if Separator in lineage then
      var parts := Split(lineage);
      Some(Join(parts[..|parts| - 1]))
    else None
  }

  /** Splitting and joining again gives back the code. */
  lemma {:induction false} JoinSplit(s: string)
    ensures Join(Split(s)) == s
  {
    if |s| > 0 {
      JoinSplit(s[1..]);
      var rest := Split(s[1..]);
      if s[0] != Separator && |rest| > 1 {
        assert Join(rest) == rest[0] + [Separator] + Join(rest[1..]);
        assert Split(s)[1..] == rest[1..];
      }
    }
  }

  /** A code with no separator splits into itself alone. */
  lemma {:induction false} SplitSingle(w: string)
    requires Separator !in w
    ensures Split(w) == [w]
  {
    if |w| > 0 {
      SplitSingle(w[1..]);
      assert [w[0]] + w[1..] == w;
    }
  }

  /** A dot-free first piece followed by a separator splits off as one piece. */
  lemma {:induction false} SplitAfterPiece(w: string, t: string)
    requires Separator !in w
    ensures Split(w + [Separator] + t) == [w] + Split(t)
  {
    var s := w + [Separator] + t;
    if |w| > 0 {
      assert s[1..] == w[1..] + [Separator] + t;
      SplitAfterPiece(w[1..], t);
      assert [w[0]] + w[1..] == w;
    } else {
      assert s[1..] == t;
    }
  }

  /** A dot-free last piece after a separator splits off as one piece. */
  lemma {:induction false} SplitBeforePiece(p: string, w: string)
    requires Separator !in w
    ensures Split(p + [Separator] + w) == Split(p) + [w]
  {
    var s := p + [Separator] + w;
    if |p| == 0 {
      assert s[1..] == w;
      SplitSingle(w);
    } else {
      assert s[1..] == p[1..] + [Separator] + w;
      SplitBeforePiece(p[1..], w);
    }
  }

  /** Joining dot-free pieces and splitting again gives back the pieces. */
  lemma {:induction false} SplitJoin(parts: seq<string>)
    requires |parts| >= 1
    requires forall i :: 0 <= i < |parts| ==> Separator !in parts[i]
    ensures Split(Join(parts)) == parts
  {
    if |parts| == 1 {
      SplitSingle(parts[0]);
    } else {
      SplitJoin(parts[1..]);
      SplitAfterPiece(parts[0], Join(parts[1..]));
    }
  }

  /** Joining with at least two pieces puts the last one after a final separator. */
  lemma {:induction false} JoinLast(parts: seq<string>)
    requires |parts| >= 2
    ensures Join(parts) == Join(parts[..|parts| - 1]) + [Separator] + parts[|parts| - 1]
  {
    var init := parts[..|parts| - 1];
    if |parts| == 2 {
      assert Join(parts) == parts[0] + [Separator] + Join(parts[1..]);
      assert Join(init) == parts[0];
    } else {
      JoinLast(parts[1..]);
      assert init[1..] == parts[1..][..|parts| - 2];
      assert Join(init) == parts[0] + [Separator] + Join(init[1..]);
      assert Join(parts) == parts[0] + [Separator] + Join(parts[1..]);
    }
  }

  /** The code has one more piece than it has separators. */
  lemma {:induction false} SplitCountsDots(s: string)
    ensures |Split(s)| == Dots(s) + 1
  {
    if |s| > 0 {
      SplitCountsDots(s[1..]);
      assert s == [s[0]] + s[1..];
    }
  }

  /** A code with a separator splits into at least two pieces. */
  lemma SplitDotted(s: string)
    requires Separator in s
    ensures |Split(s)| >= 2
  {
  }

  /** `Parent` gives no parent exactly when the code has no separator. */
  lemma ParentNoneIffNoDot(s: string)
    ensures Parent(s).None? <==> Separator !in s
    ensures Parent(s).None? <==> Dots(s) == 0
  {
  }

  /**
    Round trip: the parent, a separator and the last segment rebuild the
    code, and the last segment holds no separator — so the parent is the code
    up to its final separator.
   */
  lemma ParentRoundTrip(s: string)
    requires Separator in s
    ensures Parent(s).Some?
    ensures Parent(s).value + [Separator] + LastSegment(s) == s
    ensures Separator !in LastSegment(s)
  {
    SplitDotted(s);
    JoinSplit(s);
    JoinLast(Split(s));
  }

  /**
    Uniqueness: whenever a code is some prefix, a separator and a dot-free
    tail, `Parent` returns exactly that prefix. Together with
    `ParentRoundTrip` this characterises `Parent` without split and join.
   */
  lemma ParentOfExtension(p: string, w: string)
    requires Separator !in w
    ensures Parent(p + [Separator] + w) == Some(p)
    ensures LastSegment(p + [Separator] + w) == w
  {
    var s := p + [Separator] + w;
    assert s[|p|] == Separator;
    SplitBeforePiece(p, w);
    assert Split(s)[..|Split(s)| - 1] == Split(p);
    JoinSplit(p);
  }

  /** The pieces of the parent of a dotted code are the code's pieces minus the last. */
  lemma ParentPieces(s: string)
    requires Separator in s
    ensures Parent(s).Some?
    ensures Split(Parent(s).value) == Split(s)[..|Split(s)| - 1]
  {
    var parts := Split(s);
    SplitDotted(s);
    var init := parts[..|parts| - 1];
    assert Parent(s) == Some(Join(init));
    SplitJoin(init);
  }

  /** The parent of a dotted code is strictly shorter and has one piece fewer. */
  lemma ParentShrinks(s: string)
    requires Separator in s
    ensures Parent(s).Some?
    ensures |Parent(s).value| < |s|
    ensures Split(Parent(s).value) == Split(s)[..|Split(s)| - 1]
    ensures Dots(Parent(s).value) == Dots(s) - 1
  {
    ParentRoundTrip(s);
    ParentPieces(s);
    SplitCountsDots(s);
    SplitCountsDots(Parent(s).value);
  }

  /**
    How many times `Parent` applies before it gives no parent. Its decreasing
    length shows that repeatedly taking the parent terminates, after exactly
    as many steps as the code has separators.
   */
  function Generations(s: string): (n: nat)
    ensures n == Dots(s)
    decreases |s|
  {
    match Parent(s)
    case None =>
      ParentNoneIffNoDot(s);
      0
    case Some(p) =>
      ParentShrinks(s);
      1 + Generations(p)
  }
}
