/** What the tokens of a character separator are, in terms of the delimiters it was built with:
    a reference that reads one character at a time, and laws about it. */
module CharSeparatorLaws {
  import opened Assigner
  import opened CharSeparators

  // ----- Which characters are delimiters

  function CharsOf(s: string): (cs: set<char>)
    ensures forall ch :: ch in cs <==> ch in s
  {
    set ch | ch in s
  }

  /** The delimiters of either kind are exactly these characters. */
  ghost predicate Plays(del: Delims, kept: set<char>, dropped: set<char>) {
    forall ch :: (del.Kept(ch) <==> ch in kept) && (del.Dropped(ch) <==> ch in dropped)
  }

  lemma ExplicitDelims(droppedDelims: string, keptDelims: string)
    ensures Plays(Delims(keptDelims, droppedDelims, false, false, {}, {}), CharsOf(keptDelims), CharsOf(droppedDelims))
  {
  }

  lemma DefaultDelims(punct: set<char>, space: set<char>)
    ensures Plays(Delims("", "", true, true, punct, space), punct, space)
  {
  }

  // ----- The reference

  /** Keeping empty tokens: every delimiter ends the field read so far, and a kept one is a
      token itself. */
  function Cutting(kept: set<char>, dropped: set<char>, s: string, field: string): (t: seq<string>)
    decreases |s|
  {
    if s == "" then [field]
    else if s[0] in kept then [field, [s[0]]] + Cutting(kept, dropped, s[1..], "")
    else if s[0] in dropped then [field] + Cutting(kept, dropped, s[1..], "")
    else Cutting(kept, dropped, s[1..], field + [s[0]])
  }

  function Full(field: string): (t: seq<string>) {
    if field == "" then [] else [field]
  }

  /** Dropping empty tokens: the same without empty fields, and dropping goes before keeping. */
  function Packing(kept: set<char>, dropped: set<char>, s: string, field: string): (t: seq<string>)
    decreases |s|
  {
    if s == "" then Full(field)
    else if s[0] in dropped then Full(field) + Packing(kept, dropped, s[1..], "")
    else if s[0] in kept then Full(field) + ([[s[0]]] + Packing(kept, dropped, s[1..], ""))
    else Packing(kept, dropped, s[1..], field + [s[0]])
  }

  lemma {:induction false} CuttingPassesField(del: Delims, kept: set<char>, dropped: set<char>,
                                             s: string, field: string)
    requires Plays(del, kept, dropped)
    ensures var n := FieldLength(del, s);
            Cutting(kept, dropped, s, field) == Cutting(kept, dropped, s[n..], field + s[..n])
    decreases |s|
  {
    if s == "" || del.Is(s[0]) {
      assert s[0..] == s && field + s[..0] == field;
    } else {
      var n := FieldLength(del, s[1..]);
      CuttingPassesField(del, kept, dropped, s[1..], field + [s[0]]);
      FieldPassed(s, field, n);
    }
  }

  lemma {:induction false} PackingPassesField(del: Delims, kept: set<char>, dropped: set<char>,
                                             s: string, field: string)
    requires Plays(del, kept, dropped)
    ensures var n := FieldLength(del, s);
            Packing(kept, dropped, s, field) == Packing(kept, dropped, s[n..], field + s[..n])
    decreases |s|
  {
    if s == "" || del.Is(s[0]) {
      assert s[0..] == s && field + s[..0] == field;
    } else {
      var n := FieldLength(del, s[1..]);
      PackingPassesField(del, kept, dropped, s[1..], field + [s[0]]);
      FieldPassed(s, field, n);
    }
  }

  lemma FieldPassed(s: string, field: string, n: nat)
    requires s != "" && n <= |s| - 1
    ensures s[1..][n..] == s[n + 1..] && field + [s[0]] + s[1..][..n] == field + s[..n + 1]
  {
    assert [s[0]] + s[1..][..n] == s[..n + 1];
  }

  /** The fields and kept delimiters in turn are what the reference cuts. */
  lemma {:induction false} FieldsAreCutting(del: Delims, kept: set<char>, dropped: set<char>, s: string)
    requires Plays(del, kept, dropped)
    ensures Fields(del, s) == Cutting(kept, dropped, s, "")
    decreases |s|
  {
    var n := FieldLength(del, s);
    var t := s[n..];
    CuttingPassesField(del, kept, dropped, s, "");
    assert "" + s[..n] == s[..n];
    if t == "" {
    } else {
      FieldsAreCutting(del, kept, dropped, t[1..]);
      CuttingAtDelimiter(kept, dropped, t, s[..n]);
    }
  }

  lemma CuttingAtDelimiter(kept: set<char>, dropped: set<char>, t: string, field: string)
    requires t != "" && (t[0] in kept || t[0] in dropped)
    ensures Cutting(kept, dropped, t, field)
         == [field] + ((if t[0] in kept then [[t[0]]] else []) + Cutting(kept, dropped, t[1..], ""))
  {
  }

  lemma {:induction false} CompactIsPacking(del: Delims, kept: set<char>, dropped: set<char>, s: string)
    requires Plays(del, kept, dropped)
    ensures Compact(del, s) == Packing(kept, dropped, s, "")
    decreases |s|
  {
    if s == "" {
    } else if del.Is(s[0]) {
      CompactIsPacking(del, kept, dropped, s[1..]);
      PackingAtDelimiter(kept, dropped, s, "");
      CompactAtDelimiter(del, s);
    } else {
      var n := FieldLength(del, s);
      var t := s[n..];
      CompactAtField(del, s);
      PackingPassesField(del, kept, dropped, s, "");
      assert "" + s[..n] == s[..n];
      CompactIsPacking(del, kept, dropped, t);
      PackingAfterField(kept, dropped, t, s[..n]);
    }
  }

  lemma PackingAtDelimiter(kept: set<char>, dropped: set<char>, t: string, field: string)
    requires t != "" && (t[0] in kept || t[0] in dropped)
    ensures Packing(kept, dropped, t, field)
         == Full(field) + ((if t[0] in dropped then [] else [[t[0]]]) + Packing(kept, dropped, t[1..], ""))
  {
    assert [] + Packing(kept, dropped, t[1..], "") == Packing(kept, dropped, t[1..], "");
  }

  lemma PackingAfterField(kept: set<char>, dropped: set<char>, t: string, field: string)
    requires field != "" && (t == "" || t[0] in kept || t[0] in dropped)
    ensures Packing(kept, dropped, t, field) == [field] + Packing(kept, dropped, t, "")
  {
    if t == "" {
    } else {
      PackingAtDelimiter(kept, dropped, t, field);
      PackingAtDelimiter(kept, dropped, t, "");
      var rest := (if t[0] in dropped then [] else [[t[0]]]) + Packing(kept, dropped, t[1..], "");
      assert Full("") + rest == rest;
    }
  }

  /** The tokens of a whole input; an empty one is not asked for any. */
  function Reference(policy: Policy, kept: set<char>, dropped: set<char>, s: string): (t: seq<string>) {
    if s == "" then []
    else if policy == KeepEmptyTokens then Cutting(kept, dropped, s, "")
    else Packing(kept, dropped, s, "")
  }

  // ----- Laws

  /** `s` without the characters in `lost`. */
  function Filtered(s: string, lost: set<char>): (t: string)
    decreases |s|
  {
    if s == "" then "" else (if s[0] in lost then "" else [s[0]]) + Filtered(s[1..], lost)
  }

  lemma {:induction false} CuttingConserves(kept: set<char>, dropped: set<char>, s: string, field: string)
    ensures Flatten(Cutting(kept, dropped, s, field)) == field + Filtered(s, dropped - kept)
    decreases |s|
  {
    if s == "" {
      FlattenHead(field, []);
    } else if s[0] in kept || s[0] in dropped {
      CuttingConserves(kept, dropped, s[1..], "");
      CuttingAtDelimiter(kept, dropped, s, field);
      FlattenDelimited(field, s[0], s[0] in kept, Cutting(kept, dropped, s[1..], ""));
    } else {
      CuttingConserves(kept, dropped, s[1..], field + [s[0]]);
    }
  }

  lemma FlattenDelimiter(ch: char, shown: bool, rest: seq<string>)
    ensures Flatten((if shown then [[ch]] else []) + rest) == (if shown then [ch] else "") + Flatten(rest)
  {
    if shown {
      FlattenHead([ch], rest);
    } else {
      assert [] + rest == rest;
    }
  }

  lemma FlattenDelimited(field: string, ch: char, shown: bool, rest: seq<string>)
    ensures Flatten([field] + ((if shown then [[ch]] else []) + rest))
         == field + ((if shown then [ch] else "") + Flatten(rest))
  {
    FlattenDelimiter(ch, shown, rest);
    FlattenHead(field, (if shown then [[ch]] else []) + rest);
  }

  lemma FlattenFull(field: string, rest: seq<string>)
    ensures Flatten(Full(field) + rest) == field + Flatten(rest)
  {
    if field == "" {
      assert Full(field) + rest == rest;
    } else {
      FlattenHead(field, rest);
    }
  }

  lemma FlattenOfFull(field: string)
    ensures Flatten(Full(field)) == field
  {
    FlattenFull(field, []);
    assert Full(field) + [] == Full(field);
  }

  lemma FlattenPacked(field: string, ch: char, hidden: bool, rest: seq<string>)
    ensures Flatten(Full(field) + ((if hidden then [] else [[ch]]) + rest))
         == field + ((if hidden then "" else [ch]) + Flatten(rest))
  {
    FlattenFull(field, (if hidden then [] else [[ch]]) + rest);
    FlattenDelimiter(ch, !hidden, rest);
  }

  lemma {:induction false} PackingConserves(kept: set<char>, dropped: set<char>, s: string, field: string)
    ensures Flatten(Packing(kept, dropped, s, field)) == field + Filtered(s, dropped)
    decreases |s|
  {
    if s == "" {
      FlattenOfFull(field);
    } else if s[0] in kept || s[0] in dropped {
      PackingConserves(kept, dropped, s[1..], "");
      PackingAtDelimiter(kept, dropped, s, field);
      FlattenPacked(field, s[0], s[0] in dropped, Packing(kept, dropped, s[1..], ""));
    } else {
      PackingConserves(kept, dropped, s[1..], field + [s[0]]);
    }
  }

  /** One kept delimiter, or no delimiter at all. */
  predicate ProperToken(kept: set<char>, dropped: set<char>, tok: string) {
    (|tok| == 1 && tok[0] in kept) || forall j :: 0 <= j < |tok| ==> tok[j] !in kept && tok[j] !in dropped
  }

  predicate ProperTokens(kept: set<char>, dropped: set<char>, t: seq<string>) {
    forall i :: 0 <= i < |t| ==> ProperToken(kept, dropped, t[i])
  }

  predicate Free(kept: set<char>, dropped: set<char>, field: string) {
    forall j :: 0 <= j < |field| ==> field[j] !in kept && field[j] !in dropped
  }

  lemma {:induction false} CuttingIsProper(kept: set<char>, dropped: set<char>, s: string, field: string)
    requires Free(kept, dropped, field)
    ensures ProperTokens(kept, dropped, Cutting(kept, dropped, s, field))
    decreases |s|
  {
    if s == "" {
    } else if s[0] in kept || s[0] in dropped {
      CuttingIsProper(kept, dropped, s[1..], "");
      CuttingAtDelimiter(kept, dropped, s, field);
    } else {
      CuttingIsProper(kept, dropped, s[1..], field + [s[0]]);
    }
  }

  lemma {:induction false} PackingIsProper(kept: set<char>, dropped: set<char>, s: string, field: string)
    requires Free(kept, dropped, field)
    ensures ProperTokens(kept, dropped, Packing(kept, dropped, s, field))
    ensures "" !in Packing(kept, dropped, s, field)
    decreases |s|
  {
    if s == "" {
    } else if s[0] in kept || s[0] in dropped {
      PackingIsProper(kept, dropped, s[1..], "");
      PackingAtDelimiter(kept, dropped, s, field);
    } else {
      PackingIsProper(kept, dropped, s[1..], field + [s[0]]);
    }
  }

  /** The delimiters in `s`, each counted once, or twice if it is kept. */
  function Cuts(kept: set<char>, dropped: set<char>, s: string): (n: nat)
    decreases |s|
  {
    if s == "" then 0 else
      (if s[0] in kept then 2 else if s[0] in dropped then 1 else 0) + Cuts(kept, dropped, s[1..])
  }

  lemma {:induction false} CuttingCount(kept: set<char>, dropped: set<char>, s: string, field: string)
    ensures |Cutting(kept, dropped, s, field)| == 1 + Cuts(kept, dropped, s)
    decreases |s|
  {
    if s == "" {
    } else if s[0] in kept || s[0] in dropped {
      CuttingCount(kept, dropped, s[1..], "");
    } else {
      CuttingCount(kept, dropped, s[1..], field + [s[0]]);
    }
  }

  lemma ReferenceLaws(kept: set<char>, dropped: set<char>, policy: Policy, s: string, t: seq<string>)
    requires t == Reference(policy, kept, dropped, s)
    ensures ProperTokens(kept, dropped, t)
    ensures Flatten(t) == Filtered(s, if policy == KeepEmptyTokens then dropped - kept else dropped)
    ensures policy == DropEmptyTokens ==> "" !in t
    ensures policy == KeepEmptyTokens && s != "" ==> |t| == 1 + Cuts(kept, dropped, s)
  {
    if s == "" {
    } else if policy == KeepEmptyTokens {
      CuttingLaws(kept, dropped, s, t);
    } else {
      PackingLaws(kept, dropped, s, t);
    }
  }

  lemma CuttingLaws(kept: set<char>, dropped: set<char>, s: string, t: seq<string>)
    requires t == Cutting(kept, dropped, s, "")
    ensures ProperTokens(kept, dropped, t) && Flatten(t) == Filtered(s, dropped - kept)
    ensures |t| == 1 + Cuts(kept, dropped, s)
  {
    CuttingIsProper(kept, dropped, s, "");
    CuttingConserves(kept, dropped, s, "");
    CuttingCount(kept, dropped, s, "");
  }

  lemma PackingLaws(kept: set<char>, dropped: set<char>, s: string, t: seq<string>)
    requires t == Packing(kept, dropped, s, "")
    ensures ProperTokens(kept, dropped, t) && Flatten(t) == Filtered(s, dropped) && "" !in t
  {
    PackingIsProper(kept, dropped, s, "");
    PackingConserves(kept, dropped, s, "");
  }

  // ----- The runs

  /** The tokens of a run, whatever the flag was for the dropping policy. */
  lemma RunIsReference(del: Delims, kept: set<char>, dropped: set<char>, policy: Policy, s: string, done: bool)
    requires Plays(del, kept, dropped) && (policy == KeepEmptyTokens ==> !done)
    ensures (if s == "" then [] else RunFrom(del, policy, s, done)) == Reference(policy, kept, dropped, s)
  {
    if policy == KeepEmptyTokens {
      KeepRunIsFields(del, s);
      FieldsAreCutting(del, kept, dropped, s);
    } else {
      DropRunIsCompact(del, s, done);
      CompactIsPacking(del, kept, dropped, s);
    }
  }

  /** No lost delimiter is left, and a token is a kept delimiter or holds no delimiter. */
  ghost predicate Delimited(droppedDelims: string, keptDelims: string, tokens: seq<string>) {
    && (forall i, j :: 0 <= i < |tokens| && 0 <= j < |tokens[i]|
          ==> tokens[i][j] !in droppedDelims || tokens[i][j] in keptDelims)
    && (forall i :: 0 <= i < |tokens| ==>
          (|tokens[i]| == 1 && tokens[i][0] in keptDelims)
          || forall j :: 0 <= j < |tokens[i]| ==> tokens[i][j] !in keptDelims && tokens[i][j] !in droppedDelims)
  }

  lemma ProperIsDelimited(droppedDelims: string, keptDelims: string, tokens: seq<string>)
    requires ProperTokens(CharsOf(keptDelims), CharsOf(droppedDelims), tokens)
    ensures Delimited(droppedDelims, keptDelims, tokens)
  {
    forall i | 0 <= i < |tokens|
      ensures (|tokens[i]| == 1 && tokens[i][0] in keptDelims)
              || forall j :: 0 <= j < |tokens[i]| ==> tokens[i][j] !in keptDelims && tokens[i][j] !in droppedDelims
    {
      assert ProperToken(CharsOf(keptDelims), CharsOf(droppedDelims), tokens[i]);
    }
  }

  /** A separator built from two strings of delimiters: the tokens of any input. */
  method SplitAt(droppedDelims: string, keptDelims: string, policy: Policy, input: string, k: Category)
    returns (tokens: seq<string>)
    ensures tokens == Reference(policy, CharsOf(keptDelims), CharsOf(droppedDelims), input)
    ensures Delimited(droppedDelims, keptDelims, tokens)
    ensures Flatten(tokens)
         == Filtered(input, if policy == KeepEmptyTokens then CharsOf(droppedDelims) - CharsOf(keptDelims)
                            else CharsOf(droppedDelims))
    ensures policy == DropEmptyTokens ==> "" !in tokens
    ensures policy == KeepEmptyTokens && input != ""
            ==> |tokens| == 1 + Cuts(CharsOf(keptDelims), CharsOf(droppedDelims), input)
  {
    var separator := new CharSeparator(droppedDelims, keptDelims, policy);
    tokens := separator.Tokenize(input, k);
    ghost var kept, dropped := CharsOf(keptDelims), CharsOf(droppedDelims);
    ExplicitDelims(droppedDelims, keptDelims);
    RunIsReference(separator.delims, kept, dropped, policy, input, false);
    ReferenceLaws(kept, dropped, policy, input, tokens);
    ProperIsDelimited(droppedDelims, keptDelims, tokens);
  }

  /** A default separator: `punct` is kept, `space` is dropped, and so are empty tokens. */
  method SplitAtClasses(punct: set<char>, space: set<char>, arbitrary: bool, input: string, k: Category)
    returns (tokens: seq<string>)
    ensures tokens == Reference(DropEmptyTokens, punct, space, input)
    ensures ProperTokens(punct, space, tokens)
    ensures Flatten(tokens) == Filtered(input, space) && "" !in tokens
  {
    var separator := new CharSeparator.Default(punct, space, arbitrary);
    ghost var done := separator.outputDone;
    tokens := separator.Tokenize(input, k);
    DefaultDelims(punct, space);
    RunIsReference(separator.delims, punct, space, DropEmptyTokens, input, done);
    ReferenceLaws(punct, space, DropEmptyTokens, input, tokens);
  }
}
