/** What the tokens of an offset separator are, by position: token `j` belongs to offset
    `j % n`, where `n` is the number of offsets. */
module OffsetSeparatorLaws {
  import opened Assigner
  import opened Divisions
  import opened OffsetSeparators

  // ----- Positions

  lemma ModSmall(x: nat, n: nat)
    requires x < n
    ensures x % n == x
  {
  }

  lemma ModOnce(x: nat, n: nat)
    requires n > 0
    ensures (n + x) % n == x % n
  {
    var q, r := x / n, x % n;
    assert n * (1 + q) == n + n * q;
    DivisionUnique(n + x, n, 1 + q, r);
  }

  /** The position that follows `current`, which may be just past the last offset. */
  lemma NextPlace(current: nat, at: nat, n: nat, j: nat)
    requires n > 0 && current <= n && at == (if current == n then 0 else current)
    ensures current % n == at
    ensures (at + 1 + j) % n == (current + (j + 1)) % n
  {
    if current == n {
      ModOnce(0, n);
      ModSmall(0, n);
      ModOnce(j + 1, n);
    } else {
      ModSmall(current, n);
    }
  }

  // ----- Lengths by position

  /** The length that the offset of token `j` asks for, counted from offset `current`. */
  function LengthAt(lay: Layout, current: nat, j: nat): (n: nat)
    requires lay.offsets != []
  {
    var offset := lay.offsets[(current + j) % |lay.offsets|];
    if offset <= 0 then 0 else offset
  }

  /** Every token has the length of its offset, but the last may be shorter. */
  predicate LengthsFit(lay: Layout, t: seq<string>, current: nat)
    requires lay.offsets != []
  {
    && (lay.wrap || current + |t| <= |lay.offsets|)
    && forall j :: 0 <= j < |t| ==> |t[j]| <= LengthAt(lay, current, j)
                                    && (j < |t| - 1 ==> |t[j]| == LengthAt(lay, current, j))
  }

  lemma {:induction false} FitsByPosition(lay: Layout, t: seq<string>, current: nat)
    requires lay.offsets != [] && current <= |lay.offsets|
    ensures Fits(lay, t, current) <==> LengthsFit(lay, t, current)
    decreases |t|
  {
    var n, at := |lay.offsets|, Wrapped(lay, current);
    if t == [] || at == n {
    } else {
      FitsByPosition(lay, t[1..], at + 1);
      NextPlace(current, at, n, 0);
      PlacesMatch(lay, current, at + 1);
      FirstFits(lay, t, current, at + 1);
    }
  }

  lemma PlacesMatch(lay: Layout, current: nat, next: nat)
    requires lay.offsets != [] && current <= |lay.offsets| && next == Wrapped(lay, current) + 1 <= |lay.offsets|
    ensures forall j: nat :: SameLength(lay, next, current, j)
  {
    forall j: nat
      ensures SameLength(lay, next, current, j)
    {
      NextPlace(current, next - 1, |lay.offsets|, j);
    }
  }

  /** Token `j` counted from `next` is token `j + 1` counted from `current`. */
  predicate SameLength(lay: Layout, next: nat, current: nat, j: nat)
    requires lay.offsets != []
  {
    LengthAt(lay, next, j) == LengthAt(lay, current, j + 1)
  }

  /** Splits the condition into that of the first token and that of the others. */
  lemma FirstFits(lay: Layout, t: seq<string>, current: nat, next: nat)
    requires lay.offsets != [] && t != [] && current <= |lay.offsets|
    requires next == Wrapped(lay, current) + 1 <= |lay.offsets|
    requires forall j: nat :: SameLength(lay, next, current, j)
    ensures LengthsFit(lay, t, current)
       <==> |t[0]| <= LengthAt(lay, current, 0) && (|t[0]| < LengthAt(lay, current, 0) ==> |t| == 1)
            && LengthsFit(lay, t[1..], next)
  {
    var u := t[1..];
    if LengthsFit(lay, t, current) {
      forall j | 0 <= j < |u|
        ensures |u[j]| <= LengthAt(lay, next, j) && (j < |u| - 1 ==> |u[j]| == LengthAt(lay, next, j))
      {
        assert u[j] == t[j + 1] && SameLength(lay, next, current, j);
      }
    }
    if LengthsFit(lay, u, next) {
      forall j | 0 < j < |t|
        ensures |t[j]| <= LengthAt(lay, current, j) && (j < |t| - 1 ==> |t[j]| == LengthAt(lay, current, j))
      {
        assert t[j] == u[j - 1] && SameLength(lay, next, current, j - 1);
      }
    }
  }

  /** How much the last token lacks, and when the offsets are used up. */
  lemma {:induction false} EndByPosition(lay: Layout, t: seq<string>, current: nat)
    requires lay.offsets != [] && current <= |lay.offsets| && Fits(lay, t, current)
    ensures t != [] ==> Shortfall(lay, t, current) == LengthAt(lay, current, |t| - 1) - |t[|t| - 1]|
    ensures Wrapped(lay, After(lay, t, current)) == |lay.offsets| <==> !lay.wrap && current + |t| == |lay.offsets|
    decreases |t|
  {
    if t == [] {
    } else {
      var n, at := |lay.offsets|, Wrapped(lay, current);
      EndByPosition(lay, t[1..], at + 1);
      NextPlace(current, at, n, 0);
      if |t| > 1 {
        NextPlace(current, at, n, |t| - 2);
      }
    }
  }

  // ----- Runs by position

  /** The tokens have the lengths of their offsets and make up the text, the last one not being
      empty; or the offsets end before the text does, and the tokens are complete. */
  predicate CutsByPosition(lay: Layout, t: seq<string>, s: string)
    requires lay.offsets != []
  {
    && LengthsFit(lay, t, 0)
    && Flatten(t) <= s
    && if Flatten(t) == s then t == [] || t[|t| - 1] != ""
       else !lay.wrap && |t| == |lay.offsets| && |t[|t| - 1]| == LengthAt(lay, 0, |t| - 1)
  }

  /** A run that allows partial tokens delivers exactly the tokens that cut by position. */
  lemma RunByPosition(lay: Layout, s: string, t: seq<string>)
    requires lay.offsets != [] && (s == "" || Progresses(lay)) && lay.partialLast
    ensures t == RunFrom(lay, s, 0) <==> CutsByPosition(lay, t, s)
  {
    RunIsCut(lay, s, t, 0);
    FitsByPosition(lay, t, 0);
    if Fits(lay, t, 0) {
      EndByPosition(lay, t, 0);
      CutByPosition(lay, t, s, Shortfall(lay, t, 0), After(lay, t, 0));
    }
  }

  lemma CutByPosition(lay: Layout, t: seq<string>, s: string, short: int, after: nat)
    requires lay.offsets != [] && Fits(lay, t, 0) && LengthsFit(lay, t, 0)
    requires short == Shortfall(lay, t, 0) && after == After(lay, t, 0)
    requires t != [] ==> short == LengthAt(lay, 0, |t| - 1) - |t[|t| - 1]|
    requires Wrapped(lay, after) == |lay.offsets| <==> !lay.wrap && |t| == |lay.offsets|
    ensures IsCut(lay, t, s, 0) <==> CutsByPosition(lay, t, s)
  {
  }

  /** With wrapping, one offset positive, nothing is lost. */
  lemma WrappingByPosition(lay: Layout, s: string)
    requires lay.offsets != [] && lay.wrap && Progresses(lay) && lay.partialLast
    ensures var t := RunFrom(lay, s, 0);
            && Flatten(t) == s
            && (forall j :: 0 <= j < |t| - 1 ==> |t[j]| == LengthAt(lay, 0, j))
            && (t != [] ==> 0 < |t[|t| - 1]| <= LengthAt(lay, 0, |t| - 1))
  {
    RunByPosition(lay, s, RunFrom(lay, s, 0));
  }

  /** A run that refuses partial tokens lacks its last token exactly if that is two short. */
  lemma RefusingByPosition(lay: Layout, s: string)
    requires lay.offsets != [] && (s == "" || Progresses(lay)) && lay.partialLast
    ensures var t := RunFrom(lay, s, 0);
            RunFrom(lay.(partialLast := false), s, 0)
            == if t != [] && |t[|t| - 1]| + 2 <= LengthAt(lay, 0, |t| - 1) then t[..|t| - 1] else t
  {
    var t := RunFrom(lay, s, 0);
    PartialLastRefused(lay, s, 0);
    RunIsCut(lay, s, t, 0);
    EndByPosition(lay, t, 0);
  }

  /** The tokens of any input, for offsets and settings as given. */
  method CutAtOffsets(offsets: seq<int>, wrap: bool, partialLast: bool, input: string, k: Category)
    returns (tokens: seq<string>, ghost cut: seq<string>)
    requires offsets != []
    requires input != "" && wrap ==> exists i :: 0 <= i < |offsets| && offsets[i] > 0
    ensures CutsByPosition(Layout(offsets, wrap, true), cut, input)
    ensures tokens == if !partialLast && cut != []
                         && |cut[|cut| - 1]| + 2 <= LengthAt(Layout(offsets, wrap, true), 0, |cut| - 1)
                      then cut[..|cut| - 1] else cut
  {
    var separator := new OffsetSeparator(offsets, wrap, partialLast);
    tokens := separator.Tokenize(input, k);
    ghost var lay := Layout(offsets, wrap, true);
    cut := RunFrom(lay, input, 0);
    RunByPosition(lay, input, cut);
    RefusingByPosition(lay, input);
  }
}
