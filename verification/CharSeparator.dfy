/** The separator that breaks a text at delimiter characters. */
module CharSeparators {
  import opened Assigner

  datatype Policy = DropEmptyTokens | KeepEmptyTokens

  /** Which characters are delimiters of either kind.  Without explicit delimiters the
      locale's character classes, `punct` and `space`, serve if they are asked for. */
  datatype Delims = Delims(keptDelims: string, droppedDelims: string, useIspunct: bool, useIsspace: bool,
                           punct: set<char>, space: set<char>)
  {
    predicate Kept(ch: char) {
      if |keptDelims| > 0 then ch in keptDelims else if useIspunct then ch in punct else false
    }

    predicate Dropped(ch: char) {
      if |droppedDelims| > 0 then ch in droppedDelims else if useIsspace then ch in space else false
    }

    predicate Is(ch: char) {
      Kept(ch) || Dropped(ch)
    }
  }

  // ----- What a call does

  /** The number of characters before the first delimiter. */
  function FieldLength(del: Delims, s: string): (n: nat)
    ensures n <= |s| && (forall i :: 0 <= i < n ==> !del.Is(s[i])) && (n < |s| ==> del.Is(s[n]))
    decreases |s|
  {
    if s == "" || del.Is(s[0]) then 0 else 1 + FieldLength(del, s[1..])
  }

  lemma FieldEndsAt(del: Delims, input: string, next: nat)
    requires next <= |input| && (next < |input| ==> del.Is(input[next]))
    ensures FieldLength(del, input[next..]) == 0
  {
  }

  lemma FieldLengthAt(del: Delims, input: string, next: nat)
    requires next < |input| && !del.Is(input[next])
    ensures FieldLength(del, input[next..]) == 1 + FieldLength(del, input[next + 1..])
  {
    assert input[next..][1..] == input[next + 1..];
  }

  function SkipDropped(del: Delims, s: string): (t: string)
    ensures |t| <= |s| && (t != "" ==> !del.Dropped(t[0]))
    decreases |s|
  {
    if s != "" && del.Dropped(s[0]) then SkipDropped(del, s[1..]) else s
  }

  /** A kept delimiter is a token of its own; otherwise a token runs to the next delimiter. */
  function TakeLength(del: Delims, t: string): (n: nat)
    requires t != ""
    ensures n <= |t| && (!del.Dropped(t[0]) ==> n > 0)
  {
    if del.Kept(t[0]) then 1 else FieldLength(del, t)
  }

  /** A token, what is left of the input, and the flag after the call; or no token. */
  datatype Next = Next(tok: string, rest: string, done: bool) | Finished

  function NextToken(del: Delims, policy: Policy, s: string, done: bool): (n: Next)
    ensures n.Next? ==> 2 * |n.rest| + (if n.done then 0 else 1) < 2 * |s| + (if done then 0 else 1)
  {
    match policy
    case DropEmptyTokens =>
      var t := SkipDropped(del, s);
      if t == "" then Finished else Next(t[..TakeLength(del, t)], t[TakeLength(del, t)..], done)
    case KeepEmptyTokens =>
      if s == "" then
        if done then Finished else Next("", "", true)
      else if !done && del.Is(s[0]) then Next("", s, true)
      else if del.Kept(s[0]) then Next(s[..1], s[1..], false)
      else
        var t := if del.Dropped(s[0]) then s[1..] else s;
        Next(t[..FieldLength(del, t)], t[FieldLength(del, t)..], true)
  }

  /** A call that keeps empty tokens, by position. */
  function KeepAt(del: Delims, input: string, next: nat, done: bool): (n: Next)
    requires next <= |input|
  {
    if next == |input| then
      if done then Finished else Next("", "", true)
    else if !done && del.Is(input[next]) then Next("", input[next..], true)
    else if del.Kept(input[next]) then Next([input[next]], input[next + 1..], false)
    else
      FieldAt(del, input, if del.Dropped(input[next]) then next + 1 else next)
  }

  /** The field that begins at a position. */
  function FieldAt(del: Delims, input: string, start: nat): (n: Next)
    requires start <= |input|
  {
    var end := start + FieldLength(del, input[start..]);
    Next(input[start..end], input[end..], true)
  }

  lemma KeepAtIsNextToken(del: Delims, input: string, next: nat, done: bool)
    requires next <= |input|
    ensures NextToken(del, KeepEmptyTokens, input[next..], done) == KeepAt(del, input, next, done)
  {
    if next < |input| {
      FirstAndRest(input, next);
      if (done || !del.Is(input[next])) && !del.Kept(input[next]) {
        KeepAtField(del, input, next, done);
      }
    }
  }

  lemma KeepAtField(del: Delims, input: string, next: nat, done: bool)
    requires next < |input| && (done || !del.Is(input[next])) && !del.Kept(input[next])
    ensures NextToken(del, KeepEmptyTokens, input[next..], done)
         == FieldAt(del, input, if del.Dropped(input[next]) then next + 1 else next)
  {
    var start := if del.Dropped(input[next]) then next + 1 else next;
    FirstAndRest(input, next);
    CutAt(input, start, start + FieldLength(del, input[start..]));
  }

  lemma FirstAndRest(input: string, next: nat)
    requires next < |input|
    ensures input[next..][0] == input[next]
    ensures input[next..][1..] == input[next + 1..] && input[next..][..1] == [input[next]]
  {
  }

  function RunFrom(del: Delims, policy: Policy, s: string, done: bool): (tokens: seq<string>)
    decreases 2 * |s| + (if done then 0 else 1)
  {
    match NextToken(del, policy, s, done)
    case Finished => []
    case Next(tok, rest, d) => [tok] + RunFrom(del, policy, rest, d)
  }

  /** A whole run of a fresh separator, as a token iterator makes it: an empty input is not
      even asked for a token. */
  function Tokens(del: Delims, policy: Policy, s: string): (tokens: seq<string>) {
    if s == "" then [] else RunFrom(del, policy, s, false)
  }

  // ----- The engine

  class CharSeparator {
    var delims: Delims
    var emptyTokens: Policy
    var outputDone: bool

    constructor (droppedDelims: string, keptDelims: string, emptyTokens: Policy)
      ensures delims == Delims(keptDelims, droppedDelims, false, false, {}, {})
      ensures this.emptyTokens == emptyTokens && !outputDone
    {
      delims := Delims(keptDelims, droppedDelims, false, false, {}, {});
      this.emptyTokens, outputDone := emptyTokens, false;
    }

    /** The default constructor does not initialize the flag. */
    constructor Default(punct: set<char>, space: set<char>, arbitrary: bool)
      ensures delims == Delims("", "", true, true, punct, space)
      ensures emptyTokens == DropEmptyTokens
    {
      delims := Delims("", "", true, true, punct, space);
      emptyTokens, outputDone := DropEmptyTokens, arbitrary;
    }

    /** Does nothing: in particular it leaves `outputDone` as the last run left it. */
    method Reset()
    {
    }

    /** Moves over the characters before the next delimiter. */
    method Collect(input: string, start: nat, tok0: string, k: Category) returns (next: nat, tok: string)
      requires start <= |input| && Collected(k, tok0, "")
      ensures start <= next <= |input| && next == start + FieldLength(delims, input[start..])
      ensures FieldAt(delims, input, start) == Next(input[start..next], input[next..], true)
      ensures Collected(k, tok, input[start..next])
    {
      next, tok := start, tok0;
      ghost var del := delims;
      assert input[start..start] == "";
      while next < |input| && !delims.Dropped(input[next]) && !delims.Kept(input[next])
        invariant start <= next <= |input|
        invariant next + FieldLength(del, input[next..]) == start + FieldLength(del, input[start..])
        invariant Collected(k, tok, input[start..next])
      {
        FieldLengthAt(del, input, next);
        CollectNext(k, tok, input, start, next);
        tok := PlusEqual(k, tok, input[next]);
        next := next + 1;
      }
      FieldEndsAt(del, input, next);
    }

    method SkipAllDropped(input: string, next0: nat) returns (next: nat)
      requires next0 <= |input|
      ensures next0 <= next <= |input| && input[next..] == SkipDropped(delims, input[next0..])
    {
      next := next0;
      while next < |input| && delims.Dropped(input[next])
        invariant next0 <= next <= |input|
        invariant SkipDropped(delims, input[next..]) == SkipDropped(delims, input[next0..])
      {
        assert input[next..][1..] == input[next + 1..];
        next := next + 1;
      }
    }

    /** Takes a kept delimiter, or else a field. */
    method Take(input: string, start: nat, tok0: string, k: Category) returns (next: nat, tok: string)
      requires start < |input| && Collected(k, tok0, "")
      ensures start <= next <= |input|
      ensures var t := input[start..];
              tok == t[..TakeLength(delims, t)] && input[next..] == t[TakeLength(delims, t)..]
    {
      next, tok := start, tok0;
      assert input[start..start] == "";
      if delims.Kept(input[next]) {
        CollectNext(k, tok, input, start, next);
        tok := PlusEqual(k, tok, input[next]);
        next := next + 1;
      } else {
        next, tok := Collect(input, start, tok, k);
      }
      CutAt(input, start, next);
      tok := Assign(k, input[start..next], tok);
    }

    /** The part of a call that drops empty tokens. */
    method CallDropping(input: string, next0: nat, tok0: string, k: Category) returns (ok: bool, next: nat, tok: string)
      requires next0 <= |input| && Collected(k, tok0, "")
      ensures next0 <= next <= |input|
      ensures NextToken(delims, DropEmptyTokens, input[next0..], outputDone)
           == if ok then Next(tok, input[next..], outputDone) else Finished
      ensures !ok ==> next == |input| && tok == tok0
    {
      tok := tok0;
      next := SkipAllDropped(input, next0);
      if next == |input| {
        return false, next, tok;
      }
      next, tok := Take(input, next, tok, k);
      ok := true;
    }

    /** The part of a call that keeps empty tokens. */
    method CallKeeping(input: string, next0: nat, tok0: string, k: Category) returns (ok: bool, next: nat, tok: string)
      requires next0 <= |input| && Collected(k, tok0, "")
      modifies this`outputDone
      ensures next0 <= next <= |input|
      ensures KeepAt(delims, input, next0, old(outputDone))
           == if ok then Next(tok, input[next..], outputDone) else Finished
      ensures !ok ==> next == |input| && outputDone == old(outputDone) && tok == tok0
    {
      next, tok := next0, tok0;
      var start := next;
      assert input[start..start] == "";
      if next == |input| {
        if outputDone == false {
          outputDone := true;
          tok := Assign(k, input[start..next], tok);
          return true, next, tok;
        } else {
          return false, next, tok;
        }
      }
      if delims.Kept(input[next]) {
        if outputDone == false {
          outputDone := true;
        } else {
          CollectNext(k, tok, input, start, next);
          tok := PlusEqual(k, tok, input[next]);
          next := next + 1;
          outputDone := false;
        }
      } else if outputDone == false && delims.Dropped(input[next]) {
        outputDone := true;
      } else {
        if delims.Dropped(input[next]) {
          next := next + 1;
          start := next;
        }
        next, tok := Collect(input, start, tok, k);
        outputDone := true;
      }
      tok := Assign(k, input[start..next], tok);
      ok := true;
    }

    /** One call.  The token does not depend on the iterator category. */
    method Call(input: string, next0: nat, tok0: string, k: Category) returns (ok: bool, next: nat, tok: string)
      requires next0 <= |input|
      modifies this`outputDone
      ensures next0 <= next <= |input|
      ensures NextToken(delims, emptyTokens, input[next0..], old(outputDone))
           == if ok then Next(tok, input[next..], outputDone) else Finished
      ensures !ok ==> next == |input| && outputDone == old(outputDone) && tok == Clear(k, tok0)
      ensures !ok ==> tok == match k case InputIterator => "" case ForwardIterator => tok0
    {
      tok := Clear(k, tok0);
      if emptyTokens == DropEmptyTokens {
        ok, next, tok := CallDropping(input, next0, tok, k);
      } else {
        KeepAtIsNextToken(delims, input, next0, outputDone);
        ok, next, tok := CallKeeping(input, next0, tok, k);
      }
    }

    /** A run over an input, from whatever state the separator is in. */
    method Tokenize(input: string, k: Category) returns (tokens: seq<string>)
      modifies this`outputDone
      ensures tokens == if input == "" then [] else RunFrom(delims, emptyTokens, input, old(outputDone))
      ensures !old(outputDone) ==> tokens == Tokens(delims, emptyTokens, input)
      ensures emptyTokens == KeepEmptyTokens && input != "" ==> outputDone
    {
      tokens := [];
      Reset();
      if input == "" {
        return;
      }
      ghost var del, policy := delims, emptyTokens;
      ghost var all := RunFrom(del, policy, input, outputDone);
      var next: nat, tok := 0, "";
      assert input[0..] == input;
      while true
        invariant next <= |input|
        invariant tokens + RunFrom(del, policy, input[next..], outputDone) == all
        decreases 2 * (|input| - next) + (if outputDone then 0 else 1)
      {
        var ok;
        ghost var s, done := input[next..], outputDone;
        ok, next, tok := Call(input, next, tok, k);
        if !ok {
          RunEnds(del, policy, s, done);
          return;
        }
        RunContinues(del, policy, s, done, tokens, Next(tok, input[next..], outputDone));
        tokens := tokens + [tok];
      }
    }
  }

  lemma RunEnds(del: Delims, policy: Policy, s: string, done: bool)
    requires NextToken(del, policy, s, done) == Finished
    ensures RunFrom(del, policy, s, done) == []
    ensures policy == KeepEmptyTokens ==> done
  {
  }

  lemma RunContinues(del: Delims, policy: Policy, s: string, done: bool, tokens: seq<string>, n: Next)
    requires NextToken(del, policy, s, done) == n && n.Next?
    ensures tokens + RunFrom(del, policy, s, done) == tokens + [n.tok] + RunFrom(del, policy, n.rest, n.done)
    ensures 2 * |n.rest| + (if n.done then 0 else 1) < 2 * |s| + (if done then 0 else 1)
  {
  }

  // ----- Reference: fields and delimiters in turn

  /** Field, delimiter if it is kept, field, and so on: one field more than delimiters. */
  function Fields(del: Delims, s: string): (tokens: seq<string>)
    decreases |s|
  {
    var n := FieldLength(del, s);
    var t := s[n..];
    [s[..n]] + if t == "" then [] else (if del.Kept(t[0]) then [[t[0]]] else []) + Fields(del, t[1..])
  }

  /** The nonempty fields and the kept delimiters, dropped characters skipped one by one. */
  function Compact(del: Delims, s: string): (tokens: seq<string>)
    decreases |s|
  {
    if s == "" then []
    else if del.Dropped(s[0]) then Compact(del, s[1..])
    else if del.Kept(s[0]) then [[s[0]]] + Compact(del, s[1..])
    else var n := FieldLength(del, s); [s[..n]] + Compact(del, s[n..])
  }

  lemma KeepRunInside(del: Delims, s: string)
    ensures RunFrom(del, KeepEmptyTokens, s, false)
         == var n := FieldLength(del, s); [s[..n]] + RunFrom(del, KeepEmptyTokens, s[n..], true)
  {
    var n := FieldLength(del, s);
    if s == "" {
      assert s[..0] == "" && s[0..] == "";
    } else if del.Is(s[0]) {
      assert s[..0] == "" && s[0..] == s;
    }
  }

  lemma KeepRunAtDelimiter(del: Delims, t: string)
    requires t != "" && del.Is(t[0])
    ensures RunFrom(del, KeepEmptyTokens, t, true)
         == (if del.Kept(t[0]) then [[t[0]]] else []) + RunFrom(del, KeepEmptyTokens, t[1..], false)
  {
    if del.Kept(t[0]) {
      assert t[..1] == [t[0]];
    } else {
      KeepRunInside(del, t[1..]);
    }
  }

  /** The calls with their flag deliver the fields and kept delimiters in turn. */
  lemma {:induction false} KeepRunIsFields(del: Delims, s: string)
    ensures RunFrom(del, KeepEmptyTokens, s, false) == Fields(del, s)
    decreases |s|
  {
    var n := FieldLength(del, s);
    var t := s[n..];
    KeepRunInside(del, s);
    if t == "" {
    } else {
      KeepRunIsFields(del, t[1..]);
      KeepRunAtDelimiter(del, t);
    }
  }

  lemma {:induction false} DropRunIsCompact(del: Delims, s: string, done: bool)
    ensures RunFrom(del, DropEmptyTokens, s, done) == Compact(del, s)
    decreases |s|
  {
    var t := SkipDropped(del, s);
    CompactSkip(del, s);
    if t == "" {
    } else {
      if del.Kept(t[0]) {
        assert t[..1] == [t[0]];
        DropRunIsCompact(del, t[1..], done);
      } else {
        DropRunIsCompact(del, t[FieldLength(del, t)..], done);
      }
    }
  }

  lemma {:induction false} CompactSkip(del: Delims, s: string)
    ensures Compact(del, s) == Compact(del, SkipDropped(del, s))
    decreases |s|
  {
    if s == "" || !del.Dropped(s[0]) {
    } else {
      CompactSkip(del, s[1..]);
    }
  }

  function DelimiterCount(del: Delims, s: string): (n: nat)
    decreases |s|
  {
    if s == "" then 0 else (if del.Is(s[0]) then 1 else 0) + DelimiterCount(del, s[1..])
  }

  function KeptCount(del: Delims, s: string): (n: nat)
    decreases |s|
  {
    if s == "" then 0 else (if del.Kept(s[0]) then 1 else 0) + KeptCount(del, s[1..])
  }

  lemma {:induction false} CountsAfterField(del: Delims, s: string)
    ensures var t := s[FieldLength(del, s)..];
            DelimiterCount(del, s) == DelimiterCount(del, t) && KeptCount(del, s) == KeptCount(del, t)
    decreases |s|
  {
    if s == "" || del.Is(s[0]) {
    } else {
      CountsAfterField(del, s[1..]);
      assert s[1..][FieldLength(del, s[1..])..] == s[FieldLength(del, s)..];
    }
  }

  /** One field more than there are delimiters, and one token more for every kept one. */
  lemma {:induction false} FieldsCount(del: Delims, s: string)
    ensures |Fields(del, s)| == 1 + DelimiterCount(del, s) + KeptCount(del, s)
    decreases |s|
  {
    var t := s[FieldLength(del, s)..];
    CountsAfterField(del, s);
    if t == "" {
    } else {
      FieldsCount(del, t[1..]);
    }
  }

  // ----- The two policies

  function Nonempty(tokens: seq<string>): (t: seq<string>)
    decreases |tokens|
  {
    if tokens == [] then [] else
      (if tokens[0] == "" then [] else [tokens[0]]) + Nonempty(tokens[1..])
  }

  /** No character of `s` is a delimiter of both kinds. */
  predicate Unambiguous(del: Delims, s: string) {
    forall i :: 0 <= i < |s| ==> !(del.Kept(s[i]) && del.Dropped(s[i]))
  }

  lemma UnambiguousSuffix(del: Delims, s: string, n: nat)
    requires n <= |s| && Unambiguous(del, s)
    ensures Unambiguous(del, s[n..])
  {
    var t := s[n..];
    forall i | 0 <= i < |t|
      ensures !(del.Kept(t[i]) && del.Dropped(t[i]))
    {
      assert t[i] == s[n + i];
    }
  }

  lemma {:induction false} CompactIsNonemptyFields(del: Delims, s: string)
    requires Unambiguous(del, s)
    ensures Compact(del, s) == Nonempty(Fields(del, s))
    decreases |s|
  {
    var n := FieldLength(del, s);
    var t := s[n..];
    CompactAtField(del, s);
    if t == "" {
      NonemptyHead(s[..n], []);
    } else {
      CompactAtDelimiter(del, t);
      var rest := Fields(del, t[1..]);
      UnambiguousSuffix(del, s, n + 1);
      assert t[1..] == s[n + 1..];
      CompactIsNonemptyFields(del, t[1..]);
      if del.Kept(t[0]) {
        NonemptyHead([t[0]], rest);
        NonemptyHead(s[..n], [[t[0]]] + rest);
      } else {
        assert [] + rest == rest;
        NonemptyHead(s[..n], rest);
      }
    }
  }

  lemma NonemptyHead(f: string, rest: seq<string>)
    ensures Nonempty([f] + rest) == (if f == "" then [] else [f]) + Nonempty(rest)
  {
    assert ([f] + rest)[1..] == rest;
  }

  lemma CompactAtField(del: Delims, s: string)
    ensures var n := FieldLength(del, s);
            Compact(del, s) == (if n == 0 then [] else [s[..n]]) + Compact(del, s[n..])
  {
    if FieldLength(del, s) == 0 {
      assert s[0..] == s;
    }
  }

  lemma CompactAtDelimiter(del: Delims, t: string)
    requires t != "" && del.Is(t[0])
    ensures Compact(del, t) == (if del.Dropped(t[0]) then [] else [[t[0]]]) + Compact(del, t[1..])
  {
  }

  // ----- Conservation of characters

  /** `s` without its dropped delimiters: all of them, or only those that are not kept
      delimiters as well. */
  function Without(del: Delims, s: string, all: bool): (t: string)
    decreases |s|
  {
    if s == "" then "" else (if Lost(del, s[0], all) then "" else [s[0]]) + Without(del, s[1..], all)
  }

  predicate Lost(del: Delims, ch: char, all: bool) {
    del.Dropped(ch) && (all || !del.Kept(ch))
  }

  lemma {:induction false} WithoutAppend(del: Delims, s: string, t: string, all: bool)
    ensures Without(del, s + t, all) == Without(del, s, all) + Without(del, t, all)
    decreases |s|
  {
    if s == "" {
      assert s + t == t;
    } else {
      assert (s + t)[1..] == s[1..] + t;
      WithoutAppend(del, s[1..], t, all);
    }
  }

  lemma {:induction false} WithoutNone(del: Delims, s: string, all: bool)
    requires forall i :: 0 <= i < |s| ==> !Lost(del, s[i], all)
    ensures Without(del, s, all) == s
    decreases |s|
  {
    if s == "" {
    } else {
      WithoutNone(del, s[1..], all);
    }
  }

  lemma FlattenHead(f: string, rest: seq<string>)
    ensures Flatten([f] + rest) == f + Flatten(rest)
  {
    assert ([f] + rest)[1..] == rest;
  }

  lemma SplitAtField(del: Delims, s: string, all: bool)
    ensures var n := FieldLength(del, s);
            Without(del, s, all) == s[..n] + Without(del, s[n..], all)
  {
    var n := FieldLength(del, s);
    assert s == s[..n] + s[n..];
    WithoutAppend(del, s[..n], s[n..], all);
    WithoutNone(del, s[..n], all);
  }

  /** Keeping empty tokens, the tokens together are the input without its dropped delimiters;
      a character that is also a kept delimiter stays. */
  lemma {:induction false} FieldsConserve(del: Delims, s: string)
    ensures Flatten(Fields(del, s)) == Without(del, s, false)
    decreases |s|
  {
    var n := FieldLength(del, s);
    var t := s[n..];
    SplitAtField(del, s, false);
    if t == "" {
      FlattenHead(s[..n], []);
    } else {
      var rest := Fields(del, t[1..]);
      FieldsConserve(del, t[1..]);
      DelimiterConserved(del, t, rest);
      FlattenHead(s[..n], (if del.Kept(t[0]) then [[t[0]]] else []) + rest);
    }
  }

  lemma DelimiterConserved(del: Delims, t: string, rest: seq<string>)
    requires t != "" && del.Is(t[0]) && Flatten(rest) == Without(del, t[1..], false)
    ensures Flatten((if del.Kept(t[0]) then [[t[0]]] else []) + rest) == Without(del, t, false)
  {
    if del.Kept(t[0]) {
      FlattenHead([t[0]], rest);
    } else {
      assert [] + rest == rest;
    }
  }

  /** Dropping empty tokens, a character that is a delimiter of both kinds is lost. */
  lemma {:induction false} CompactConserve(del: Delims, s: string)
    ensures Flatten(Compact(del, s)) == Without(del, s, true)
    decreases |s|
  {
    if s == "" {
    } else {
      if del.Dropped(s[0]) {
        CompactConserve(del, s[1..]);
      } else if del.Kept(s[0]) {
        CompactConserve(del, s[1..]);
        FlattenHead([s[0]], Compact(del, s[1..]));
      } else {
        var n := FieldLength(del, s);
        CompactConserve(del, s[n..]);
        FlattenHead(s[..n], Compact(del, s[n..]));
        SplitAtField(del, s, true);
      }
    }
  }

  lemma {:induction false} FlattenNonempty(tokens: seq<string>)
    ensures Flatten(Nonempty(tokens)) == Flatten(tokens)
    decreases |tokens|
  {
    if tokens == [] {
    } else {
      FlattenNonempty(tokens[1..]);
      if tokens[0] != "" {
        FlattenHead(tokens[0], Nonempty(tokens[1..]));
      } else {
        assert [] + Nonempty(tokens[1..]) == Nonempty(tokens[1..]);
      }
    }
  }

  lemma {:induction false} AmbiguousLoses(del: Delims, s: string)
    ensures |Without(del, s, true)| <= |Without(del, s, false)|
    ensures |Without(del, s, true)| == |Without(del, s, false)| ==> Unambiguous(del, s)
    decreases |s|
  {
    if s == "" {
    } else {
      AmbiguousLoses(del, s[1..]);
      assert s == [s[0]] + s[1..];
    }
  }

  /** Dropping empty tokens is keeping them and then removing the empty ones, exactly for the
      inputs in which no character is a delimiter of both kinds. */
  lemma PoliciesAgree(del: Delims, s: string)
    ensures Tokens(del, DropEmptyTokens, s) == Nonempty(Tokens(del, KeepEmptyTokens, s))
       <==> Unambiguous(del, s)
  {
    if s != "" {
      DropRunIsCompact(del, s, false);
      KeepRunIsFields(del, s);
      if Unambiguous(del, s) {
        CompactIsNonemptyFields(del, s);
      }
      if Compact(del, s) == Nonempty(Fields(del, s)) {
        CompactConserve(del, s);
        FieldsConserve(del, s);
        FlattenNonempty(Fields(del, s));
        AmbiguousLoses(del, s);
      }
    }
  }

  // ----- A separator that is used again

  /** A finished keep_empty_tokens run leaves the flag set and `reset` does not clear it.  A
      second run over `s` then delivers the same tokens exactly if `s` does not begin with a
      delimiter; otherwise its leading empty token is missing. */
  lemma ReusedRun(del: Delims, s: string)
    requires s != ""
    ensures RunFrom(del, KeepEmptyTokens, s, false)
         == (if del.Is(s[0]) then [""] else []) + RunFrom(del, KeepEmptyTokens, s, true)
    ensures RunFrom(del, KeepEmptyTokens, s, true) == RunFrom(del, KeepEmptyTokens, s, false) <==> !del.Is(s[0])
  {
    KeepRunInside(del, s);
    if del.Is(s[0]) {
      assert s[..0] == "" && s[0..] == s;
    }
  }
}
