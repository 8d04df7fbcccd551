/** The separator for comma separated values with quotes and escapes. */
module EscapedList {
  import opened Wrappers

  /** The characters that play the three roles; each role may have several, and a character may
      have several roles. */
  datatype Roles = Roles(escape: string, c: string, quote: string)
  {
    predicate Special(ch: char) {
      ch in quote || ch in c || ch in escape
    }
  }

  datatype EscapedListError = CannotEndWithEscape | UnknownEscapeSequence

  /** What the characters `s` up to the next separator outside quotes amount to, with `tok`
      already collected: a field and what follows it, or the exception. */
  datatype Scanned =
    | Field(tok: string, rest: string, separated: bool)
    | Failed(error: EscapedListError)

  function Scan(k: Roles, s: string, inQuote: bool, tok: string): (r: Scanned)
    ensures r.Field? ==> |r.rest| <= |s| && (s != "" ==> |r.rest| < |s|)
    decreases |s|
  {
    if s == "" then Field(tok, "", false)
    else if s[0] in k.escape then
      match EscapedChar(k, s[1..])
      case None => Failed(if |s| == 1 then CannotEndWithEscape else UnknownEscapeSequence)
      case Some(ch) => Scan(k, s[2..], inQuote, tok + [ch])
    else if s[0] in k.c then
      if inQuote then Scan(k, s[1..], inQuote, tok + [s[0]]) else Field(tok, s[1..], true)
    else if s[0] in k.quote then Scan(k, s[1..], !inQuote, tok)
    else Scan(k, s[1..], inQuote, tok + [s[0]])
  }

  /** The character that an escape sequence stands for, given what follows the escape. */
  function EscapedChar(k: Roles, s: string): (r: Option<char>)
    ensures r.Some? ==> s != ""
  {
    if s == "" then None
    else if s[0] == 'n' then Some('\n')
    else if k.Special(s[0]) then Some(s[0])
    else None
  }

  /** One character of a scan, by position. */
  lemma ScanAt(k: Roles, input: string, next: nat, inQuote: bool, tok: string)
    requires next < |input|
    ensures var ch, o := input[next], EscapedChar(k, input[next + 1..]);
            Scan(k, input[next..], inQuote, tok) ==
            if ch in k.escape then
              if o == None then Failed(if next + 1 == |input| then CannotEndWithEscape else UnknownEscapeSequence)
              else Scan(k, input[next + 2..], inQuote, tok + [o.value])
            else if ch in k.c then
              if inQuote then Scan(k, input[next + 1..], inQuote, tok + [ch]) else Field(tok, input[next + 1..], true)
            else if ch in k.quote then Scan(k, input[next + 1..], !inQuote, tok)
            else Scan(k, input[next + 1..], inQuote, tok + [ch])
  {
    var s := input[next..];
    assert s[1..] == input[next + 1..];
    if next + 1 < |input| {
      assert s[2..] == input[next + 2..];
    }
  }

  /** A whole run: the tokens delivered, and the exception that ended it, if any. */
  datatype Run = Run(tokens: seq<string>, error: Option<EscapedListError>)

  function Prepend(tok: string, r: Run): (s: Run) {
    Run([tok] + r.tokens, r.error)
  }

  /** Repeated calls until one returns false; `last` is the flag for one more empty field. */
  function RunFrom(k: Roles, s: string, last: bool): (r: Run)
    decreases |s|, last
  {
    if s == "" then
      Run(if last then [""] else [], None)
    else
      match Scan(k, s, false, "")
      case Failed(e) => Run([], Some(e))
      case Field(tok, rest, separated) => Prepend(tok, RunFrom(k, rest, separated))
  }

  /** The tokens of a whole input. */
  function Tokens(k: Roles, s: string): (r: Run) {
    RunFrom(k, s, false)
  }

  // ----- The engine

  /** A call delivers a token, or says that there is none, or throws. */
  datatype CallResult = Token(tok: string) | End | Thrown(error: EscapedListError)

  /** A call's result, new position and flag are what the scan says. */
  predicate Delivers(s: Scanned, r: CallResult, input: string, next: nat, last: bool) {
    if s.Failed? then r == Thrown(s.error)
    else r == Token(s.tok) && next <= |input| && input[next..] == s.rest && last == s.separated
  }

  class EscapedListSeparator {
    var escape: string
    var c: string
    var quote: string
    var last: bool

    function Config(): (k: Roles)
      reads this
    {
      Roles(escape, c, quote)
    }

    constructor (e: string, c: string, q: string)
      ensures Config() == Roles(e, c, q) && !last
    {
      escape, this.c, quote, last := e, c, q, false;
    }

    method Reset()
      modifies this`last
      ensures !last
    {
      last := false;
    }

    /** Reads the character after an escape; `next0` is the position of the escape. */
    method DoEscape(input: string, next0: nat, tok0: string)
      returns (error: Option<EscapedListError>, next: nat, tok: string)
      requires next0 < |input|
      ensures next == next0 + 1
      ensures var o := EscapedChar(Config(), input[next0 + 1..]);
              if o == None
              then error == Some(if next == |input| then CannotEndWithEscape else UnknownEscapeSequence)
              else error == None && next < |input| && tok == tok0 + [o.value]
      ensures error == Some(CannotEndWithEscape) <==> next == |input|
      ensures next < |input| && input[next] == 'n' ==> error == None && tok == tok0 + "\n"
      ensures next < |input| && input[next] != 'n'
              ==> if input[next] in quote || input[next] in c || input[next] in escape
                  then error == None && tok == tok0 + [input[next]]
                  else error == Some(UnknownEscapeSequence)
    {
      error, next, tok := None, next0 + 1, tok0;
      if next == |input| {
        error := Some(CannotEndWithEscape);
        return;
      }
      if input[next] == 'n' {
        tok := tok + ['\n'];
      } else if input[next] in quote {
        tok := tok + [input[next]];
      } else if input[next] in c {
        tok := tok + [input[next]];
      } else if input[next] in escape {
        tok := tok + [input[next]];
      } else {
        error := Some(UnknownEscapeSequence);
      }
    }

    method Call(input: string, next0: nat) returns (r: CallResult, next: nat)
      requires next0 <= |input|
      modifies this`last
      ensures next0 == |input|
              ==> r == (if old(last) then Token("") else End) && !last && next == next0
      ensures next0 < |input|
              ==> Delivers(Scan(Config(), input[next0..], false, ""), r, input, next, last)
                  && (if r.Token? then next0 < next else !last)
    {
      var inQuote := false;
      var tok := "";
      next := next0;
      if next == |input| {
        if last {
          last := false;
          return Token(tok), next;
        } else {
          return End, next;
        }
      }
      last := false;
      ghost var k := Config();
      ghost var all := Scan(k, input[next0..], false, "");
      while next < |input|
        invariant next0 <= next <= |input| && !last
        invariant Scan(k, input[next..], inQuote, tok) == all
        decreases |input| - next
      {
        ScanAt(k, input, next, inQuote, tok);
        if input[next] in escape {
          var error;
          error, next, tok := DoEscape(input, next, tok);
          if error.Some? {
            return Thrown(error.value), next;
          }
        } else if input[next] in c {
          if !inQuote {
            next := next + 1;
            last := true;
            return Token(tok), next;
          } else {
            tok := tok + [input[next]];
          }
        } else if input[next] in quote {
          inQuote := !inQuote;
        } else {
          tok := tok + [input[next]];
        }
        next := next + 1;
      }
      r := Token(tok);
    }

    /** All tokens of an input, as a token iterator asks for them: not at all for an empty
        input, and otherwise until a call fails. */
    method Tokenize(input: string) returns (run: Run)
      modifies this`last
      ensures run == Tokens(Config(), input)
    {
      Reset();
      var tokens: seq<string> := [];
      ghost var k := Config();
      ghost var all := Tokens(k, input);
      var next: nat := 0;
      assert input[0..] == input;
      while true
        invariant next <= |input|
        invariant Extend(tokens, RunFrom(k, input[next..], last)) == all
        decreases |input| - next, last
      {
        var r;
        ghost var before := RunFrom(k, input[next..], last);
        r, next := Call(input, next);
        if r == End {
          return Run(tokens, None);
        }
        if r.Thrown? {
          return Run(tokens, Some(r.error));
        }
        assert before == Prepend(r.tok, RunFrom(k, input[next..], last));
        ExtendPrepend(tokens, r.tok, RunFrom(k, input[next..], last));
        tokens := tokens + [r.tok];
      }
    }
  }

  function Extend(tokens: seq<string>, r: Run): (s: Run) {
    Run(tokens + r.tokens, r.error)
  }

  lemma ExtendPrepend(tokens: seq<string>, tok: string, r: Run)
    ensures Extend(tokens, Prepend(tok, r)) == Extend(tokens + [tok], r)
  {
  }

  // ----- The reference: first read the characters, then cut at the separators

  datatype Item = Text(ch: char) | Separator(ch: char) | Quote

  datatype Lexed = Lexed(items: seq<Item>, error: Option<EscapedListError>)

  /** Reads escapes and gives every other character its role, regardless of quoting. */
  function Lex(k: Roles, s: string): (l: Lexed)
    decreases |s|
  {
    if s == "" then Lexed([], None)
    else if s[0] in k.escape then
      match EscapedChar(k, s[1..])
      case None => Lexed([], Some(if |s| == 1 then CannotEndWithEscape else UnknownEscapeSequence))
      case Some(ch) => var l := Lex(k, s[2..]); l.(items := [Text(ch)] + l.items)
    else
      var item := if s[0] in k.c then Separator(s[0]) else if s[0] in k.quote then Quote else Text(s[0]);
      var l := Lex(k, s[1..]);
      l.(items := [item] + l.items)
  }

  /** Cuts at the separators outside quotes; `field` has been collected so far. */
  function Split(items: seq<Item>, inQuote: bool, field: string): (fields: seq<string>)
    ensures |fields| > 0
    decreases |items|
  {
    if items == [] then [field] else
      match items[0]
      case Text(ch) => Split(items[1..], inQuote, field + [ch])
      case Quote => Split(items[1..], !inQuote, field)
      case Separator(ch) =>
        if inQuote then Split(items[1..], inQuote, field + [ch])
        else [field] + Split(items[1..], false, "")
  }

  /** All fields, or, if reading failed, those that were complete before the failure. */
  function Reading(k: Roles, s: string, inQuote: bool, field: string): (r: Run) {
    var l := Lex(k, s);
    var fields := Split(l.items, inQuote, field);
    Run(if l.error == None then fields else fields[..|fields| - 1], l.error)
  }

  /** The reading after its first item has been dealt with. */
  function ReadingAfter(k: Roles, item: Item, rest: string, inQuote: bool, field: string): (r: Run) {
    match item
    case Text(ch) => Reading(k, rest, inQuote, field + [ch])
    case Quote => Reading(k, rest, !inQuote, field)
    case Separator(ch) =>
      if inQuote then Reading(k, rest, inQuote, field + [ch])
      else Prepend(field, Reading(k, rest, false, ""))
  }

  lemma ReadingStep(k: Roles, s: string, inQuote: bool, field: string, item: Item, rest: string)
    requires Lex(k, s) == Lexed([item] + Lex(k, rest).items, Lex(k, rest).error)
    ensures Reading(k, s, inQuote, field) == ReadingAfter(k, item, rest, inQuote, field)
  {
    var items := Lex(k, s).items;
    assert items[1..] == Lex(k, rest).items;
    if item.Separator? && !inQuote {
      var fields := Split(items[1..], false, "");
      assert ([field] + fields)[..|fields|] == [field] + fields[..|fields| - 1];
    }
  }

  /** What a call finds, followed by the rest of the run. */
  function ScanThenRun(k: Roles, s: string, inQuote: bool, tok: string): (r: Run) {
    match Scan(k, s, inQuote, tok)
    case Failed(e) => Run([], Some(e))
    case Field(t, rest, separated) => Prepend(t, RunFrom(k, rest, separated))
  }

  lemma {:induction false} ScanThenRunReads(k: Roles, s: string, inQuote: bool, tok: string)
    ensures ScanThenRun(k, s, inQuote, tok) == Reading(k, s, inQuote, tok)
    decreases |s|
  {
    if s == "" {
      assert Prepend(tok, RunFrom(k, "", false)).tokens == [tok];
    } else if s[0] in k.escape {
      match EscapedChar(k, s[1..]) {
        case None =>
        case Some(ch) =>
          ReadingStep(k, s, inQuote, tok, Text(ch), s[2..]);
          ScanThenRunReads(k, s[2..], inQuote, tok + [ch]);
      }
    } else if s[0] in k.c {
      ReadingStep(k, s, inQuote, tok, Separator(s[0]), s[1..]);
      if inQuote {
        ScanThenRunReads(k, s[1..], inQuote, tok + [s[0]]);
      } else if s[1..] == "" {
        assert Reading(k, "", false, "").tokens == [""];
      } else {
        ScanThenRunReads(k, s[1..], false, "");
      }
    } else if s[0] in k.quote {
      ReadingStep(k, s, inQuote, tok, Quote, s[1..]);
      ScanThenRunReads(k, s[1..], !inQuote, tok);
    } else {
      ReadingStep(k, s, inQuote, tok, Text(s[0]), s[1..]);
      ScanThenRunReads(k, s[1..], inQuote, tok + [s[0]]);
    }
  }

  /** The run of calls with its flag is the two-pass reading of the input, except that an
      empty input has no field at all. */
  lemma TokensAreReading(k: Roles, s: string)
    ensures Tokens(k, s) == if s == "" then Run([], None) else Reading(k, s, false, "")
  {
    if s != "" {
      ScanThenRunReads(k, s, false, "");
    }
  }

  // ----- Round trip

  /** A field and the way it is written: bare, or between quotes. */
  datatype Written = Written(text: string, quoted: bool)

  /** Bare, every special character is escaped; between quotes a separator need not be. */
  predicate NeedsEscape(k: Roles, quoted: bool, ch: char) {
    if quoted then ch in k.escape || ch in k.quote else k.Special(ch)
  }

  function EncodeText(k: Roles, e: char, quoted: bool, s: string): (t: string)
    decreases |s|
  {
    if s == "" then "" else
      EncodeChar(k, e, quoted, s[0]) + EncodeText(k, e, quoted, s[1..])
  }

  function EncodeChar(k: Roles, e: char, quoted: bool, ch: char): (t: string) {
    if NeedsEscape(k, quoted, ch) then [e, ch] else [ch]
  }

  /** The characters chosen to write with. */
  datatype Pen = Pen(e: char, sep: char, q: char)
  {
    /** An escape, and a separator that is not read as an escape. */
    predicate FitsBare(k: Roles) {
      e in k.escape && sep in k.c && sep !in k.escape
    }

    /** A quote that is not read as an escape or a separator. */
    predicate FitsQuoted(k: Roles) {
      q in k.quote && q !in k.c && q !in k.escape
    }

    predicate Fits(k: Roles, fields: seq<Written>) {
      FitsBare(k) && forall i :: 0 <= i < |fields| && fields[i].quoted ==> FitsQuoted(k)
    }
  }

  function EncodeField(k: Roles, pen: Pen, f: Written): (t: string) {
    if f.quoted then [pen.q] + EncodeText(k, pen.e, true, f.text) + [pen.q]
    else EncodeText(k, pen.e, false, f.text)
  }

  function Encode(k: Roles, pen: Pen, fields: seq<Written>): (t: string)
    decreases |fields|
  {
    if fields == [] then ""
    else if |fields| == 1 then EncodeField(k, pen, fields[0])
    else EncodeField(k, pen, fields[0]) + [pen.sep] + Encode(k, pen, fields[1..])
  }

  /** What reading makes of a text: an escaped 'n' is a newline. */
  function Reread(k: Roles, quoted: bool, s: string): (t: string)
    ensures |t| == |s|
    decreases |s|
  {
    if s == "" then "" else
      [RereadChar(k, quoted, s[0])] + Reread(k, quoted, s[1..])
  }

  function RereadChar(k: Roles, quoted: bool, ch: char): (c: char) {
    if ch == 'n' && NeedsEscape(k, quoted, 'n') then '\n' else ch
  }

  function RereadAll(k: Roles, fields: seq<Written>): (t: seq<string>)
    ensures |t| == |fields|
    decreases |fields|
  {
    if fields == [] then [] else [Reread(k, fields[0].quoted, fields[0].text)] + RereadAll(k, fields[1..])
  }

  lemma ReadingOfChar(k: Roles, e: char, quoted: bool, ch: char, tail: string, field: string)
    requires e in k.escape
    ensures Reading(k, EncodeChar(k, e, quoted, ch) + tail, quoted, field)
         == Reading(k, tail, quoted, field + [RereadChar(k, quoted, ch)])
  {
    var t := EncodeChar(k, e, quoted, ch) + tail;
    if NeedsEscape(k, quoted, ch) {
      assert t[1..][0] == ch && t[2..] == tail;
      ReadingStep(k, t, quoted, field, Text(RereadChar(k, quoted, ch)), tail);
    } else {
      assert t[1..] == tail;
      ReadingStep(k, t, quoted, field, if ch in k.c then Separator(ch) else Text(ch), tail);
    }
  }

  lemma {:induction false} ReadingOfText(k: Roles, e: char, quoted: bool, s: string, rest: string, field: string)
    requires e in k.escape
    ensures Reading(k, EncodeText(k, e, quoted, s) + rest, quoted, field)
         == Reading(k, rest, quoted, field + Reread(k, quoted, s))
    decreases |s|
  {
    if s == "" {
      assert EncodeText(k, e, quoted, s) + rest == rest && field + "" == field;
    } else {
      var ch := RereadChar(k, quoted, s[0]);
      EncodeFirst(k, e, quoted, s, rest);
      ReadingOfChar(k, e, quoted, s[0], EncodeText(k, e, quoted, s[1..]) + rest, field);
      ReadingOfText(k, e, quoted, s[1..], rest, field + [ch]);
      RereadFirst(k, quoted, s, field);
    }
  }

  lemma EncodeFirst(k: Roles, e: char, quoted: bool, s: string, rest: string)
    requires s != ""
    ensures EncodeText(k, e, quoted, s) + rest
         == EncodeChar(k, e, quoted, s[0]) + (EncodeText(k, e, quoted, s[1..]) + rest)
  {
  }

  lemma RereadFirst(k: Roles, quoted: bool, s: string, field: string)
    requires s != ""
    ensures field + [RereadChar(k, quoted, s[0])] + Reread(k, quoted, s[1..]) == field + Reread(k, quoted, s)
  {
  }

  lemma ReadingOfField(k: Roles, pen: Pen, f: Written, rest: string)
    requires pen.FitsBare(k) && (f.quoted ==> pen.FitsQuoted(k))
    ensures Reading(k, EncodeField(k, pen, f) + rest, false, "")
         == Reading(k, rest, false, Reread(k, f.quoted, f.text))
  {
    var body := EncodeText(k, pen.e, f.quoted, f.text);
    if f.quoted {
      var t := EncodeField(k, pen, f) + rest;
      var tail := [pen.q] + rest;
      assert t[1..] == body + tail;
      ReadingStep(k, t, false, "", Quote, body + tail);
      ReadingOfText(k, pen.e, true, f.text, tail, "");
      assert tail[1..] == rest;
      ReadingStep(k, tail, true, Reread(k, true, f.text), Quote, rest);
    } else {
      ReadingOfText(k, pen.e, false, f.text, rest, "");
    }
    assert "" + Reread(k, f.quoted, f.text) == Reread(k, f.quoted, f.text);
  }

  lemma {:induction false} ReadingOfEncoding(k: Roles, pen: Pen, fields: seq<Written>)
    requires pen.Fits(k, fields) && fields != []
    ensures Reading(k, Encode(k, pen, fields), false, "") == Run(RereadAll(k, fields), None)
    decreases |fields|
  {
    var f := Reread(k, fields[0].quoted, fields[0].text);
    if |fields| == 1 {
      ReadingOfField(k, pen, fields[0], "");
      assert Encode(k, pen, fields) + "" == Encode(k, pen, fields);
      assert fields[1..] == [];
    } else {
      var tail := Encode(k, pen, fields[1..]);
      var rest := [pen.sep] + tail;
      assert Encode(k, pen, fields) == EncodeField(k, pen, fields[0]) + rest;
      ReadingOfField(k, pen, fields[0], rest);
      assert rest[1..] == tail;
      ReadingStep(k, rest, false, f, Separator(pen.sep), tail);
      ReadingOfEncoding(k, pen, fields[1..]);
    }
  }

  /** Reading back what was written, for every list of fields, however each is written. */
  lemma EncodingReadBack(k: Roles, pen: Pen, fields: seq<Written>)
    requires pen.Fits(k, fields)
    ensures Tokens(k, Encode(k, pen, fields))
         == if Encode(k, pen, fields) == "" then Run([], None) else Run(RereadAll(k, fields), None)
  {
    TokensAreReading(k, Encode(k, pen, fields));
    if fields != [] {
      ReadingOfEncoding(k, pen, fields);
    }
  }

  function Texts(fields: seq<Written>): (t: seq<string>)
    ensures |t| == |fields|
    decreases |fields|
  {
    if fields == [] then [] else [fields[0].text] + Texts(fields[1..])
  }

  /** No 'n' has to be escaped. */
  predicate NewlineSafe(k: Roles, fields: seq<Written>) {
    forall i :: 0 <= i < |fields| ==> !('n' in fields[i].text && NeedsEscape(k, fields[i].quoted, 'n'))
  }

  lemma {:induction false} RereadIsSame(k: Roles, quoted: bool, s: string)
    ensures Reread(k, quoted, s) == s <==> !('n' in s && NeedsEscape(k, quoted, 'n'))
    decreases |s|
  {
    if s == "" {
    } else {
      RereadIsSame(k, quoted, s[1..]);
      assert s == [s[0]] + s[1..];
      assert Reread(k, quoted, s)[1..] == Reread(k, quoted, s[1..]);
    }
  }

  lemma {:induction false} RereadAllIsSame(k: Roles, fields: seq<Written>)
    ensures RereadAll(k, fields) == Texts(fields) <==> NewlineSafe(k, fields)
    decreases |fields|
  {
    if fields == [] {
    } else {
      var rest := fields[1..];
      RereadAllIsSame(k, rest);
      RereadIsSame(k, fields[0].quoted, fields[0].text);
      assert RereadAll(k, fields)[1..] == RereadAll(k, rest);
      assert Texts(fields)[1..] == Texts(rest);
      assert NewlineSafe(k, fields) ==> NewlineSafe(k, rest) by {
        assert forall i :: 0 <= i < |rest| ==> rest[i] == fields[i + 1];
      }
      if NewlineSafe(k, rest) && RereadAll(k, fields)[0] == fields[0].text {
        assert forall i :: 0 < i < |fields| ==> fields[i] == rest[i - 1];
      }
    }
  }

  lemma {:induction false} EmptyEncoding(k: Roles, pen: Pen, fields: seq<Written>)
    ensures Encode(k, pen, fields) == "" <==> fields == [] || fields == [Written("", false)]
  {
    if |fields| == 1 {
      assert fields == [fields[0]];
    }
  }

  /** The round trip is exact for every list of fields except one bare empty field, which
      leaves nothing to read, and fields in which an 'n' has to be escaped. */
  lemma RoundTrip(k: Roles, pen: Pen, fields: seq<Written>)
    requires pen.Fits(k, fields)
    ensures Tokens(k, Encode(k, pen, fields)) == Run(Texts(fields), None)
       <==> fields != [Written("", false)] && NewlineSafe(k, fields)
  {
    EncodingReadBack(k, pen, fields);
    EmptyEncoding(k, pen, fields);
    RereadAllIsSame(k, fields);
  }

  /** An input that loses a newline: with 'n' as the quote, a field that holds it comes back
      changed. */
  lemma RoundTripLosesN()
    ensures var k, pen := Roles("e", ",", "n"), Pen('e', ',', 'n');
            pen.Fits(k, [Written("n", false)])
            && Tokens(k, Encode(k, pen, [Written("n", false)])) != Run(["n"], None)
  {
    var k, pen, fields := Roles("e", ",", "n"), Pen('e', ',', 'n'), [Written("n", false)];
    assert fields[0].text[0] == 'n';
    assert fields[1..] == [];
    RoundTrip(k, pen, fields);
    assert Texts(fields) == ["n"];
  }

  // ----- What each kind of character does, in terms of the three strings

  /** Characters that stand for themselves: outside quotes those without a role, and between
      quotes separators as well. */
  predicate Plain(k: Roles, inQuote: bool, s: string) {
    forall i :: 0 <= i < |s| ==>
      && s[i] !in k.escape
      && if inQuote then s[i] in k.c || s[i] !in k.quote else s[i] !in k.c && s[i] !in k.quote
  }

  lemma {:induction false} ReadPlain(k: Roles, a: string, rest: string, inQuote: bool, field: string)
    requires Plain(k, inQuote, a)
    ensures Reading(k, a + rest, inQuote, field) == Reading(k, rest, inQuote, field + a)
    decreases |a|
  {
    if a == "" {
      assert a + rest == rest && field + a == field;
    } else {
      var t, tail := a + rest, a[1..] + rest;
      assert t[0] == a[0] && t[1..] == tail;
      ReadingStep(k, t, inQuote, field, if a[0] in k.c then Separator(a[0]) else Text(a[0]), tail);
      ReadPlain(k, a[1..], rest, inQuote, field + [a[0]]);
      assert field + [a[0]] + a[1..] == field + a;
    }
  }

  /** An escape with the character after it. */
  lemma ReadEscape(k: Roles, e: char, ch: char, rest: string, inQuote: bool, field: string)
    requires e in k.escape
    ensures Reading(k, [e, ch] + rest, inQuote, field)
         == if ch == 'n' then Reading(k, rest, inQuote, field + "\n")
            else if ch in k.quote || ch in k.c || ch in k.escape then Reading(k, rest, inQuote, field + [ch])
            else Run([], Some(UnknownEscapeSequence))
  {
    var t := [e, ch] + rest;
    assert t[0] == e && t[1..][0] == ch && t[2..] == rest;
    if ch == 'n' {
      ReadingStep(k, t, inQuote, field, Text('\n'), rest);
    } else if ch in k.quote || ch in k.c || ch in k.escape {
      ReadingStep(k, t, inQuote, field, Text(ch), rest);
    }
  }

  lemma ReadLastEscape(k: Roles, e: char, inQuote: bool, field: string)
    requires e in k.escape
    ensures Reading(k, [e], inQuote, field) == Run([], Some(CannotEndWithEscape))
  {
  }

  lemma ReadSeparator(k: Roles, sep: char, rest: string, field: string)
    requires sep in k.c && sep !in k.escape
    ensures Reading(k, [sep] + rest, false, field) == Prepend(field, Reading(k, rest, false, ""))
  {
    var t := [sep] + rest;
    assert t[0] == sep && t[1..] == rest;
    ReadingStep(k, t, false, field, Separator(sep), rest);
  }

  lemma ReadQuote(k: Roles, q: char, rest: string, inQuote: bool, field: string)
    requires q in k.quote && q !in k.c && q !in k.escape
    ensures Reading(k, [q] + rest, inQuote, field) == Reading(k, rest, !inQuote, field)
  {
    var t := [q] + rest;
    assert t[0] == q && t[1..] == rest;
    ReadingStep(k, t, inQuote, field, Quote, rest);
  }

  lemma ReadToEnd(k: Roles, b: string, inQuote: bool, field: string)
    requires Plain(k, inQuote, b)
    ensures Reading(k, b, inQuote, field) == Run([field + b], None)
  {
    ReadPlain(k, b, "", inQuote, field);
    assert b + "" == b;
  }

  /** An escaped 'n' is a newline, an escaped character with a role is itself, and anything else
      after an escape, or nothing, is an error. */
  lemma EscapeMeaning(k: Roles, e: char, ch: char, a: string, b: string)
    requires e in k.escape && Plain(k, false, a) && Plain(k, false, b)
    ensures Tokens(k, a + [e, 'n'] + b) == Run([a + "\n" + b], None)
    ensures ch != 'n' && (ch in k.quote || ch in k.c || ch in k.escape)
            ==> Tokens(k, a + [e, ch] + b) == Run([a + [ch] + b], None)
    ensures ch != 'n' && ch !in k.quote && ch !in k.c && ch !in k.escape
            ==> Tokens(k, a + [e, ch] + b) == Run([], Some(UnknownEscapeSequence))
    ensures Tokens(k, a + [e]) == Run([], Some(CannotEndWithEscape))
  {
    EscapeReads(k, e, 'n', a, b);
    EscapeReads(k, e, ch, a, b);
    TokensAreReading(k, a + [e]);
    ReadPlain(k, a, [e], false, "");
    ReadLastEscape(k, e, false, "" + a);
  }

  lemma EscapeReads(k: Roles, e: char, ch: char, a: string, b: string)
    requires e in k.escape && Plain(k, false, a) && Plain(k, false, b)
    ensures Tokens(k, a + [e, ch] + b)
         == if ch == 'n' then Run([a + "\n" + b], None)
            else if ch in k.quote || ch in k.c || ch in k.escape then Run([a + [ch] + b], None)
            else Run([], Some(UnknownEscapeSequence))
  {
    assert a + [e, ch] + b == a + ([e, ch] + b);
    TokensAreReading(k, a + [e, ch] + b);
    ReadPlain(k, a, [e, ch] + b, false, "");
    assert "" + a == a;
    ReadEscape(k, e, ch, b, false, a);
    ReadToEnd(k, b, false, a + "\n");
    ReadToEnd(k, b, false, a + [ch]);
  }

  /** A separator that is no escape cuts; a field that is complete is delivered before an
      error in the next one. */
  lemma SeparatorMeaning(k: Roles, sep: char, a: string, b: string, e: char)
    requires sep in k.c && sep !in k.escape && Plain(k, false, a) && Plain(k, false, b)
    ensures Tokens(k, a + [sep] + b) == Run([a, b], None)
    ensures e in k.escape ==> Tokens(k, a + [sep] + (b + [e])) == Run([a], Some(CannotEndWithEscape))
  {
    SeparatorReads(k, sep, a, b);
    ReadToEnd(k, b, false, "");
    assert "" + b == b;
    if e in k.escape {
      SeparatorReads(k, sep, a, b + [e]);
      ReadPlain(k, b, [e], false, "");
      ReadLastEscape(k, e, false, "" + b);
    }
  }

  lemma SeparatorReads(k: Roles, sep: char, a: string, rest: string)
    requires sep in k.c && sep !in k.escape && Plain(k, false, a)
    ensures Tokens(k, a + [sep] + rest) == Prepend(a, Reading(k, rest, false, ""))
  {
    assert a + [sep] + rest == a + ([sep] + rest);
    TokensAreReading(k, a + [sep] + rest);
    ReadPlain(k, a, [sep] + rest, false, "");
    assert "" + a == a;
    ReadSeparator(k, sep, rest, a);
  }

  /** Quotes disappear, wherever they stand, and between them a separator does not cut and an
      escape keeps its meaning; the closing quote may be missing. */
  lemma QuoteMeaning(k: Roles, q: char, e: char, a: string, b: string, d: string)
    requires q in k.quote && q !in k.c && q !in k.escape
    requires Plain(k, false, a) && Plain(k, true, b) && Plain(k, false, d)
    ensures Tokens(k, a + [q] + (b + ([q] + d))) == Run([a + b + d], None)
    ensures Tokens(k, a + [q] + b) == Run([a + b], None)
    ensures e in k.escape ==> Tokens(k, a + [q] + (b + ([e, 'n'] + ([q] + d)))) == Run([a + b + "\n" + d], None)
  {
    QuoteReads(k, q, a, b, [q] + d);
    ReadQuote(k, q, d, true, a + b);
    ReadToEnd(k, d, false, a + b);
    QuoteReads(k, q, a, b, "");
    assert b + "" == b;
    if e in k.escape {
      QuoteReads(k, q, a, b, [e, 'n'] + ([q] + d));
      ReadEscape(k, e, 'n', [q] + d, true, a + b);
      ReadQuote(k, q, d, true, a + b + "\n");
      ReadToEnd(k, d, false, a + b + "\n");
    }
  }

  lemma QuoteReads(k: Roles, q: char, a: string, b: string, rest: string)
    requires q in k.quote && q !in k.c && q !in k.escape
    requires Plain(k, false, a) && Plain(k, true, b)
    ensures Tokens(k, a + [q] + (b + rest)) == Reading(k, rest, true, a + b)
  {
    assert a + [q] + (b + rest) == a + ([q] + (b + rest));
    TokensAreReading(k, a + [q] + (b + rest));
    ReadPlain(k, a, [q] + (b + rest), false, "");
    assert "" + a == a;
    ReadQuote(k, q, b + rest, false, a);
    ReadPlain(k, b, rest, true, a);
  }
}
