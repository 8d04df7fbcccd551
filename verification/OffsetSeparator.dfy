/** The separator that cuts a text into tokens of given lengths. */
module OffsetSeparators {
  import opened Assigner

  /** The lengths, and what happens when they are used up or the text is. */
  datatype Layout = Layout(offsets: seq<int>, wrap: bool, partialLast: bool)

  /** A token, what is left of the input, and the position in the layout; or no token. */
  datatype Next = Next(tok: string, rest: string, current: nat) | Finished

  /** The length of the token that an offset takes from a text of `n` characters. */
  function Taken(offset: int, n: nat): (i: nat)
    ensures i <= n
  {
    if offset <= 0 then 0 else if offset <= n then offset else n
  }

  /** The position after wrapping around. */
  function Wrapped(lay: Layout, current: nat): (c: nat) {
    if current == |lay.offsets| && lay.wrap then 0 else current
  }

  /** One call on the text `s`. */
  function NextToken(lay: Layout, s: string, current: nat): (n: Next)
    requires lay.offsets != [] && current <= |lay.offsets|
    ensures n.Next? ==> |n.rest| <= |s| && n.current <= |lay.offsets| && n.tok + n.rest == s
  {
    var at := Wrapped(lay, current);
    if s == "" || at == |lay.offsets| then Finished
    else
      var i := Taken(lay.offsets[at], |s|);
      if !lay.partialLast && i < lay.offsets[at] - 1 then Finished
      else Next(s[..i], s[i..], at + 1)
  }

  /** Does some offset take a character, each time the layout comes around? */
  predicate Progresses(lay: Layout) {
    lay.wrap ==> exists i :: 0 <= i < |lay.offsets| && lay.offsets[i] > 0
  }

  /** How many offsets that take nothing come next, in this round. */
  function Idle(offsets: seq<int>, at: nat): (k: nat)
    requires at <= |offsets|
    ensures at + k <= |offsets| && (at + k < |offsets| ==> offsets[at + k] > 0)
    decreases |offsets| - at
  {
    if at < |offsets| && offsets[at] <= 0 then 1 + Idle(offsets, at + 1) else 0
  }

  /** How many calls can pass before one takes a character or the offsets are used up. */
  function Turns(lay: Layout, current: nat): (k: nat)
    requires current <= |lay.offsets|
  {
    var idle := Idle(lay.offsets, current);
    if !lay.wrap then |lay.offsets| - current
    else if current + idle < |lay.offsets| then idle
    else idle + Idle(lay.offsets, 0)
  }

  lemma {:induction false} IdleStopsBefore(offsets: seq<int>, at: nat, i: nat)
    requires at <= i < |offsets| && offsets[i] > 0
    ensures at + Idle(offsets, at) <= i
    decreases i - at
  {
    if offsets[at] > 0 {
    } else {
      IdleStopsBefore(offsets, at + 1, i);
    }
  }

  /** A call shortens the text or the wait for a call that does. */
  lemma CallsProgress(lay: Layout, s: string, current: nat)
    requires lay.offsets != [] && current <= |lay.offsets| && Progresses(lay)
    ensures var n := NextToken(lay, s, current);
            n.Next? ==> |n.rest| < |s| || (n.rest == s && Turns(lay, n.current) < Turns(lay, current))
  {
    if lay.wrap {
      var i :| 0 <= i < |lay.offsets| && lay.offsets[i] > 0;
      IdleStopsBefore(lay.offsets, 0, i);
    }
  }

  /** A whole run.  Every run ends, unless offsets that take nothing repeat on a text. */
  function RunFrom(lay: Layout, s: string, current: nat): (tokens: seq<string>)
    requires lay.offsets != [] && current <= |lay.offsets| && (s == "" || Progresses(lay))
    decreases |s|, if Progresses(lay) then Turns(lay, current) else 0
  {
    if s == "" then [] else
      CallsProgress(lay, s, current);
      match NextToken(lay, s, current)
      case Finished => []
      case Next(tok, rest, c) => [tok] + RunFrom(lay, rest, c)
  }

  // ----- Which runs end

  /** What the call after `k` others delivers. */
  function CallAfter(lay: Layout, s: string, current: nat, k: nat): (n: Next)
    requires lay.offsets != [] && current <= |lay.offsets|
    decreases k
  {
    var n := NextToken(lay, s, current);
    if k == 0 || n.Finished? then n else CallAfter(lay, n.rest, n.current, k - 1)
  }

  /** The tokens of a run are what its calls deliver, one after the other. */
  lemma {:induction false} CallsAreRun(lay: Layout, s: string, current: nat, k: nat)
    requires lay.offsets != [] && current <= |lay.offsets| && (s == "" || Progresses(lay))
    ensures var t, n := RunFrom(lay, s, current), CallAfter(lay, s, current, k);
            if k < |t| then n.Next? && n.tok == t[k] else n.Finished?
    decreases k
  {
    var n := NextToken(lay, s, current);
    if n.Finished? || k == 0 {
    } else {
      CallsAreRun(lay, n.rest, n.current, k - 1);
    }
  }

  /** Offsets that take nothing deliver empty tokens and leave the text alone. */
  lemma {:induction false} IdleCalls(lay: Layout, s: string, current: nat, k: nat)
    requires lay.offsets != [] && current <= |lay.offsets| && s != "" && !Progresses(lay)
    ensures var n := CallAfter(lay, s, current, k); n.Next? && n.tok == "" && n.rest == s
    decreases k
  {
    var n := NextToken(lay, s, current);
    if k == 0 {
    } else {
      IdleCalls(lay, n.rest, n.current, k - 1);
    }
  }

  /** A run ends exactly if its text is empty, or its offsets do not wrap, or one is positive. */
  lemma RunEnds(lay: Layout, s: string, current: nat)
    requires lay.offsets != [] && current <= |lay.offsets|
    ensures (exists k: nat :: CallAfter(lay, s, current, k).Finished?) <==> s == "" || Progresses(lay)
  {
    if s == "" || Progresses(lay) {
      CallsAreRun(lay, s, current, |RunFrom(lay, s, current)|);
    } else {
      forall k: nat
        ensures !CallAfter(lay, s, current, k).Finished?
      {
        IdleCalls(lay, s, current, k);
      }
    }
  }

  // ----- The engine

  class OffsetSeparator {
    var layout: Layout
    var currentOffset: nat

    predicate Valid()
      reads this
    {
      layout.offsets != [] && currentOffset <= |layout.offsets|
    }

    constructor (offsets: seq<int>, wrapOffsets: bool, returnPartialLast: bool)
      requires offsets != []
      ensures Valid() && layout == Layout(offsets, wrapOffsets, returnPartialLast) && currentOffset == 0
    {
      layout, currentOffset := Layout(offsets, wrapOffsets, returnPartialLast), 0;
    }

    method Reset()
      modifies this`currentOffset
      ensures currentOffset == 0
    {
      currentOffset := 0;
    }

    /** Passes up to `c` characters and counts them. */
    static method Advance(input: string, start: nat, c: int, tok0: string, k: Category)
      returns (i: nat, next: nat, tok: string)
      requires start <= |input| && Collected(k, tok0, "")
      ensures i == Taken(c, |input| - start) && next == start + i && Collected(k, tok, input[start..next])
    {
      i, next, tok := 0, start, tok0;
      assert input[start..start] == "";
      while i < c && next < |input|
        invariant (i <= c || i == 0) && next == start + i <= |input|
        invariant Collected(k, tok, input[start..next])
      {
        CollectNext(k, tok, input, start, next);
        tok := PlusEqual(k, tok, input[next]);
        next := next + 1;
        i := i + 1;
      }
    }

    /** Passes the characters of one token and fills the token with them. */
    static method Cut(input: string, start: nat, c: int, tok0: string, k: Category)
      returns (i: nat, next: nat, tok: string)
      requires start <= |input| && Collected(k, tok0, "")
      ensures i == Taken(c, |input| - start) && next == start + i
      ensures tok == input[start..][..i] && input[next..] == input[start..][i..]
    {
      i, next, tok := Advance(input, start, c, tok0, k);
      CutAt(input, start, next);
      tok := Assign(k, input[start..next], tok);
    }

    /** One call.  A token that is delivered does not depend on the iterator category. */
    method Call(input: string, next0: nat, tok0: string, k: Category) returns (ok: bool, next: nat, tok: string)
      requires Valid() && next0 <= |input|
      modifies this`currentOffset
      ensures Valid() && next0 <= next <= |input|
      ensures NextToken(layout, input[next0..], old(currentOffset))
           == if ok then Next(tok, input[next..], currentOffset) else Finished
      ensures !ok ==> AfterRefusal(layout, input[next0..], old(currentOffset), Clear(k, tok0))
                      == Remains(next - next0, tok, currentOffset)
      ensures !ok && next == next0 ==> tok == match k case InputIterator => "" case ForwardIterator => tok0
      ensures !ok && next != next0 ==> next == |input| && tok == input[next0..]
      ensures !ok && next != next0
              ==> currentOffset == if old(currentOffset) == |layout.offsets| then 0 else old(currentOffset)
    {
      next, tok := next0, Clear(k, tok0);
      if next == |input| {
        return false, next, tok;
      }
      if currentOffset == |layout.offsets| {
        if layout.wrap {
          currentOffset := 0;
        } else {
          return false, next, tok;
        }
      }
      var c := layout.offsets[currentOffset];
      var i;
      i, next, tok := Cut(input, next, c, tok, k);
      if !layout.partialLast {
        if i < c - 1 {
          return false, next, tok;
        }
      }
      currentOffset := currentOffset + 1;
      ok := true;
    }

    /** A run over an input from the first offset on. */
    method Tokenize(input: string, k: Category) returns (tokens: seq<string>)
      requires Valid() && (input == "" || Progresses(layout))
      modifies this`currentOffset
      ensures Valid() && tokens == RunFrom(layout, input, 0)
    {
      tokens := [];
      Reset();
      if input == "" {
        return;
      }
      ghost var lay := layout;
      ghost var all := RunFrom(lay, input, 0);
      var next: nat, tok := 0, "";
      assert input[0..] == input;
      while true
        invariant Valid() && next <= |input|
        invariant tokens + RunFrom(lay, input[next..], currentOffset) == all
        decreases |input| - next, Turns(lay, currentOffset)
      {
        var ok;
        ghost var s, current := input[next..], currentOffset;
        ok, next, tok := Call(input, next, tok, k);
        if !ok {
          return;
        }
        RunContinues(lay, s, current, tokens, Next(tok, input[next..], currentOffset));
        tokens := tokens + [tok];
      }
    }
  }

  /** What a call that fails has changed: the characters it passed, the token, the position. */
  datatype Remains = Remains(passed: int, tok: string, current: nat)

  /** A call fails at the end of the text or of the offsets, with the token only cleared, or
      on a partial token that it refuses, with the position behind it and the token filled. */
  function AfterRefusal(lay: Layout, s: string, current: nat, cleared: string): (r: Remains)
    requires lay.offsets != [] && current <= |lay.offsets|
  {
    var at := Wrapped(lay, current);
    if s == "" then Remains(0, cleared, current)
    else if at == |lay.offsets| then Remains(0, cleared, at)
    else Remains(|s|, s, at)
  }

  lemma RunContinues(lay: Layout, s: string, current: nat, tokens: seq<string>, n: Next)
    requires lay.offsets != [] && current <= |lay.offsets| && Progresses(lay)
    requires NextToken(lay, s, current) == n && n.Next?
    ensures tokens + RunFrom(lay, s, current) == tokens + [n.tok] + RunFrom(lay, n.rest, n.current)
    ensures |n.rest| < |s| || (n.rest == s && Turns(lay, n.current) < Turns(lay, current))
  {
    CallsProgress(lay, s, current);
  }

  // ----- What the tokens are

  /** The length that an offset asks for. */
  function Length(offset: int): (n: nat) {
    if offset > 0 then offset else 0
  }

  /** Tokens of the lengths of the layout; the last one may be shorter. */
  predicate Fits(lay: Layout, tokens: seq<string>, current: nat)
    requires lay.offsets != [] && current <= |lay.offsets|
    decreases |tokens|
  {
    tokens == [] ||
    var at := Wrapped(lay, current);
    && at < |lay.offsets|
    && |tokens[0]| <= Length(lay.offsets[at])
    && (|tokens[0]| < Length(lay.offsets[at]) ==> |tokens| == 1)
    && Fits(lay, tokens[1..], at + 1)
  }

  /** By how many characters the last token is shorter than its offset asks for. */
  function Shortfall(lay: Layout, tokens: seq<string>, current: nat): (n: int)
    requires lay.offsets != [] && current <= |lay.offsets|
    decreases |tokens|
  {
    var at := Wrapped(lay, current);
    if tokens == [] || at == |lay.offsets| then 0
    else if |tokens| == 1 then Length(lay.offsets[at]) - |tokens[0]|
    else Shortfall(lay, tokens[1..], at + 1)
  }

  /** The position in the layout after these tokens. */
  function After(lay: Layout, tokens: seq<string>, current: nat): (c: nat)
    requires lay.offsets != [] && current <= |lay.offsets| && Fits(lay, tokens, current)
    ensures c <= |lay.offsets|
    decreases |tokens|
  {
    if tokens == [] then current else After(lay, tokens[1..], Wrapped(lay, current) + 1)
  }

  /** The tokens fit the layout and make up the text, with nothing after its last character;
      or they are complete tokens that make up its beginning and use up the offsets. */
  predicate IsCut(lay: Layout, tokens: seq<string>, s: string, current: nat)
    requires lay.offsets != [] && current <= |lay.offsets|
  {
    && Fits(lay, tokens, current)
    && Flatten(tokens) <= s
    && if Flatten(tokens) == s then tokens == [] || tokens[|tokens| - 1] != ""
       else Shortfall(lay, tokens, current) == 0 && Wrapped(lay, After(lay, tokens, current)) == |lay.offsets|
  }

  lemma PrefixGlued(tok: string, f: string, rest: string)
    ensures tok + f <= tok + rest <==> f <= rest
    ensures tok + f == tok + rest <==> f == rest
  {
    if tok + f <= tok + rest {
      assert f == (tok + f)[|tok|..] && rest == (tok + rest)[|tok|..];
      assert (tok + rest)[..|tok + f|] == tok + f;
      assert rest[..|f|] == f;
    }
  }

  /** What a token in front changes. */
  lemma TokenPrepended(lay: Layout, tok: string, t: seq<string>, current: nat)
    requires lay.offsets != [] && current <= |lay.offsets| && Wrapped(lay, current) < |lay.offsets|
    ensures var at, all := Wrapped(lay, current), [tok] + t;
            var n := Length(lay.offsets[at]);
            && Flatten(all) == tok + Flatten(t)
            && Shortfall(lay, all, current) == (if t == [] then n - |tok| else Shortfall(lay, t, at + 1))
            && (Fits(lay, all, current) <==> |tok| <= n && (|tok| < n ==> t == []) && Fits(lay, t, at + 1))
            && (Fits(lay, all, current) ==> After(lay, all, current) == After(lay, t, at + 1))
  {
    var all := [tok] + t;
    assert all[0] == tok && all[1..] == t;
  }

  /** A token in front of a cut of the rest makes a cut. */
  lemma CutPrepended(lay: Layout, s: string, current: nat, t: seq<string>)
    requires lay.offsets != [] && current <= |lay.offsets| && s != ""
    requires Wrapped(lay, current) < |lay.offsets|
    requires var at := Wrapped(lay, current); var i := Taken(lay.offsets[at], |s|);
             IsCut(lay, t, s[i..], at + 1)
    ensures var i := Taken(lay.offsets[Wrapped(lay, current)], |s|);
            IsCut(lay, [s[..i]] + t, s, current)
  {
    var at := Wrapped(lay, current);
    var i := Taken(lay.offsets[at], |s|);
    var tok, rest := s[..i], s[i..];
    assert s == tok + rest;
    TokenPrepended(lay, tok, t, current);
    PrefixGlued(tok, Flatten(t), rest);
    if rest == "" {
      EmptyCut(lay, t, at + 1);
    }
  }

  lemma EmptyCut(lay: Layout, t: seq<string>, current: nat)
    requires lay.offsets != [] && current <= |lay.offsets| && IsCut(lay, t, "", current)
    ensures t == []
  {
    if t != [] {
      LastInFlatten(t);
      assert false;
    }
  }

  lemma {:induction false} LastInFlatten(t: seq<string>)
    requires t != []
    ensures |Flatten(t)| >= |t[|t| - 1]|
    decreases |t|
  {
    if |t| == 1 {
    } else {
      LastInFlatten(t[1..]);
    }
  }

  /** With partial last tokens, every run that ends cuts its text. */
  lemma {:induction false} RunCuts(lay: Layout, s: string, current: nat)
    requires lay.offsets != [] && current <= |lay.offsets| && (s == "" || Progresses(lay)) && lay.partialLast
    ensures IsCut(lay, RunFrom(lay, s, current), s, current)
    decreases |s|, if Progresses(lay) then Turns(lay, current) else 0
  {
    var n := NextToken(lay, s, current);
    if n.Finished? {
    } else {
      CallsProgress(lay, s, current);
      RunCuts(lay, n.rest, n.current);
      CutPrepended(lay, s, current, RunFrom(lay, n.rest, n.current));
    }
  }

  /** The layout and the text determine the first token of a cut, and what is left to cut. */
  lemma FirstOfCut(lay: Layout, t: seq<string>, s: string, current: nat)
    requires lay.offsets != [] && current <= |lay.offsets| && IsCut(lay, t, s, current)
    ensures var at := Wrapped(lay, current);
            if s == "" || at == |lay.offsets| then t == []
            else var i := Taken(lay.offsets[at], |s|);
                 && t != [] && t[0] == s[..i] && IsCut(lay, t[1..], s[i..], at + 1)
  {
    var at := Wrapped(lay, current);
    if t == [] {
    } else if s == "" {
      LastInFlatten(t);
      assert false;
    } else {
      var i := Taken(lay.offsets[at], |s|);
      assert Flatten(t) == t[0] + Flatten(t[1..]);
      assert |t[0]| == i by {
        if |t| == 1 {
          assert Flatten(t[1..]) == "" && t[0] == Flatten(t);
        }
      }
      assert t[0] == Flatten(t)[..i] == s[..i];
      assert s == t[0] + s[i..];
      PrefixGlued(t[0], Flatten(t[1..]), s[i..]);
    }
  }

  /** A text has one cut at most, for any offsets. */
  lemma {:induction false} CutUnique(lay: Layout, t: seq<string>, u: seq<string>, s: string, current: nat)
    requires lay.offsets != [] && current <= |lay.offsets|
    requires IsCut(lay, t, s, current) && IsCut(lay, u, s, current)
    ensures t == u
    decreases |t|
  {
    FirstOfCut(lay, t, s, current);
    FirstOfCut(lay, u, s, current);
    if t == [] {
    } else {
      var at := Wrapped(lay, current);
      var i := Taken(lay.offsets[at], |s|);
      CutUnique(lay, t[1..], u[1..], s[i..], at + 1);
      assert t == [t[0]] + t[1..] && u == [u[0]] + u[1..];
    }
  }

  /** A run delivers the cut of its text and nothing else. */
  lemma RunIsCut(lay: Layout, s: string, t: seq<string>, current: nat)
    requires lay.offsets != [] && current <= |lay.offsets| && (s == "" || Progresses(lay)) && lay.partialLast
    ensures t == RunFrom(lay, s, current) <==> IsCut(lay, t, s, current)
  {
    RunCuts(lay, s, current);
    if IsCut(lay, t, s, current) {
      CutUnique(lay, t, RunFrom(lay, s, current), s, current);
    }
  }

  /** With wrapping offsets, one of them positive, nothing is lost, and the tokens are the only
      ones that fit. */
  lemma WrappingRunCutsAll(lay: Layout, s: string, t: seq<string>)
    requires lay.offsets != [] && lay.wrap && Progresses(lay) && lay.partialLast
    ensures t == RunFrom(lay, s, 0)
       <==> Fits(lay, t, 0) && Flatten(t) == s && (t == [] || t[|t| - 1] != "")
  {
    RunIsCut(lay, s, t, 0);
    if Fits(lay, t, 0) {
      assert Wrapped(lay, After(lay, t, 0)) < |lay.offsets|;
    }
  }

  /** Offsets that take nothing cannot cut a text into finitely many tokens. */
  lemma {:induction false} NoCut(lay: Layout, t: seq<string>, s: string, current: nat)
    requires lay.offsets != [] && current <= |lay.offsets| && s != "" && !Progresses(lay)
    ensures !IsCut(lay, t, s, current)
    decreases |t|
  {
    if !IsCut(lay, t, s, current) {
    } else {
      FirstOfCut(lay, t, s, current);
      NoCut(lay, t[1..], s, Wrapped(lay, current) + 1);
    }
  }

  /** The texts that have a cut are exactly those whose runs end. */
  lemma CutExists(lay: Layout, s: string, current: nat)
    requires lay.offsets != [] && current <= |lay.offsets| && lay.partialLast
    ensures (exists t :: IsCut(lay, t, s, current)) <==> exists k: nat :: CallAfter(lay, s, current, k).Finished?
  {
    RunEnds(lay, s, current);
    if s == "" || Progresses(lay) {
      RunCuts(lay, s, current);
    } else {
      forall t
        ensures !IsCut(lay, t, s, current)
      {
        NoCut(lay, t, s, current);
      }
    }
  }

  /** Refusing a partial last token removes the last token exactly if it is two or more
      characters short; one that lacks a single character is still delivered. */
  lemma {:induction false} PartialLastRefused(lay: Layout, s: string, current: nat)
    requires lay.offsets != [] && current <= |lay.offsets| && (s == "" || Progresses(lay)) && lay.partialLast
    ensures var strict := lay.(partialLast := false);
            var t := RunFrom(lay, s, current);
            RunFrom(strict, s, current) == if Shortfall(lay, t, current) >= 2 then t[..|t| - 1] else t
    decreases |s|, if Progresses(lay) then Turns(lay, current) else 0
  {
    var strict := lay.(partialLast := false);
    var n := NextToken(lay, s, current);
    if n.Finished? {
    } else {
      CallsProgress(lay, s, current);
      RunUnfolds(lay, s, current);
      RunUnfolds(strict, s, current);
      PartialLastRefused(lay, n.rest, n.current);
      StrictNext(lay, s, current);
      RefusedAfter(lay, current, n.tok, RunFrom(lay, n.rest, n.current), RunFrom(strict, n.rest, n.current));
    }
  }

  /** Where partial tokens are refused, a text one character short of its only offset is a
      token all the same, and one that is two short is not. */
  lemma ShortTokenDelivered(s: string)
    requires s != ""
    ensures RunFrom(Layout([|s| + 1], false, false), s, 0) == [s]
    ensures RunFrom(Layout([|s| + 2], false, false), s, 0) == []
    ensures RunFrom(Layout([3], false, false), "ab", 0) == ["ab"]
  {
    var short, ab := Layout([|s| + 1], false, false), Layout([3], false, false);
    assert NextToken(short, s, 0) == Next(s, "", 1);
    assert NextToken(ab, "ab", 0) == Next("ab", "", 1);
  }

  lemma RunUnfolds(lay: Layout, s: string, current: nat)
    requires lay.offsets != [] && current <= |lay.offsets| && s != "" && Progresses(lay)
    ensures var n := NextToken(lay, s, current);
            RunFrom(lay, s, current) == if n.Finished? then [] else [n.tok] + RunFrom(lay, n.rest, n.current)
  {
  }

  /** What a refused token takes away is the same with another token in front. */
  lemma RefusedAfter(lay: Layout, current: nat, tok: string, rest: seq<string>, strictRest: seq<string>)
    requires lay.offsets != [] && current <= |lay.offsets| && Wrapped(lay, current) < |lay.offsets|
    requires |tok| < lay.offsets[Wrapped(lay, current)] ==> rest == []
    requires var short := Shortfall(lay, rest, Wrapped(lay, current) + 1);
             strictRest == if short >= 2 then rest[..|rest| - 1] else rest
    ensures var t, short := [tok] + rest, Shortfall(lay, [tok] + rest, current);
            (if |tok| < lay.offsets[Wrapped(lay, current)] - 1 then [] else [tok] + strictRest)
            == if short >= 2 then t[..|t| - 1] else t
  {
    TokenPrepended(lay, tok, rest, current);
    ButLast(tok, rest);
  }

  lemma StrictNext(lay: Layout, s: string, current: nat)
    requires lay.offsets != [] && current <= |lay.offsets| && lay.partialLast
    requires NextToken(lay, s, current).Next?
    ensures var n, strict := NextToken(lay, s, current), lay.(partialLast := false);
            var offset := lay.offsets[Wrapped(lay, current)];
            && NextToken(strict, s, current) == (if |n.tok| < offset - 1 then Finished else n)
            && (|n.tok| < offset ==> n.rest == "")
  {
  }

  lemma ButLast(tok: string, rest: seq<string>)
    ensures ([tok] + rest)[..|rest|] == if rest == [] then [] else [tok] + rest[..|rest| - 1]
  {
  }
}
