/** The tokenizer functions as state machines on the text that remains, and what their token sequences are. */
module Separators {
  // ----- Machines -----

  /** The three roles of `escaped_list_separator`, each played by any character of a string. */
  datatype Roles = Roles(escape: string, delimiter: string, quote: string)

  /** The delimiters of `char_separator`. The character classes of the C library are parameters. */
  datatype Delimiters = Delimiters(
    kept: string, dropped: string, usePunct: bool, useSpace: bool, isPunct: char -> bool, isSpace: char -> bool)
  {
    predicate Kept(ch: char) {
      if |kept| > 0 then ch in kept else usePunct && isPunct(ch)
    }

    predicate Dropped(ch: char) {
      if |dropped| > 0 then ch in dropped else useSpace && isSpace(ch)
    }

    predicate Delimits(ch: char) { Dropped(ch) || Kept(ch) }
  }

  datatype EmptyTokenPolicy = DropEmptyTokens | KeepEmptyTokens

  /** A tokenizer function with the member that changes between calls. */
  datatype Machine =
    | EscapedList(roles: Roles, last: bool)
    | CharSeparator(delims: Delimiters, policy: EmptyTokenPolicy, outputDone: bool)

  datatype Error = CannotEndWithEscape | UnknownEscapeSequence

  /** One call: a token, with the machine and the text left over; the end; or an exception, with the partial token
      and the text from the offending place on. */
  datatype Step =
    | Token(tok: string, m: Machine, rest: string)
    | End(endM: Machine, endTok: string)
    | Throw(error: Error, partial: string, from: string)

  // ----- Escaped lists -----

  /** The rest of a field, read from inside or outside quotes. */
  datatype Field =
    | Read(tok: string, rest: string, last: bool)
    | Failed(error: Error, tok: string, rest: string)

  function Extend(prefix: string, f: Field): Field {
    f.(tok := prefix + f.tok)
  }

  function ReadField(roles: Roles, text: string, inQuote: bool): (f: Field)
    ensures f.Read? ==> |f.rest| <= |text| && (text != "" ==> |f.rest| < |text|) && (f.last ==> text != "")
    ensures |f.rest| <= |text|
  {
    if text == "" then Read("", "", false)
    else if text[0] in roles.escape then
      if |text| == 1 then Failed(CannotEndWithEscape, "", "")
      else if text[1] == 'n' then Extend("\n", ReadField(roles, text[2..], inQuote))
      else if text[1] in roles.quote || text[1] in roles.delimiter || text[1] in roles.escape then
        Extend([text[1]], ReadField(roles, text[2..], inQuote))
      else Failed(UnknownEscapeSequence, "", text[1..])
    else if text[0] in roles.delimiter then
      if inQuote then Extend([text[0]], ReadField(roles, text[1..], inQuote)) else Read("", text[1..], true)
    else if text[0] in roles.quote then ReadField(roles, text[1..], !inQuote)
    else Extend([text[0]], ReadField(roles, text[1..], inQuote))
  }

  // ----- Character separators -----

  /** The length of the longest prefix without delimiters. */
  function RunLength(d: Delimiters, text: string): (n: nat)
    ensures n <= |text| && (forall i :: 0 <= i < n ==> !d.Delimits(text[i])) && (n < |text| ==> d.Delimits(text[n]))
  {
    if text == "" || d.Delimits(text[0]) then 0 else 1 + RunLength(d, text[1..])
  }

  function SkipDropped(d: Delimiters, text: string): (rest: string)
    ensures |rest| <= |text| && (rest != "" ==> !d.Dropped(rest[0]))
  {
    if text != "" && d.Dropped(text[0]) then SkipDropped(d, text[1..]) else text
  }

  function DropStep(m: Machine, text: string, stale: string): Step
    requires m.CharSeparator?
  {
    var rest := SkipDropped(m.delims, text);
    if rest == "" then End(m, stale)
    else
      var n := if m.delims.Kept(rest[0]) then 1 else RunLength(m.delims, rest);
      Token(rest[..n], m, rest[n..])
  }

  function KeepStep(m: Machine, text: string, stale: string): Step
    requires m.CharSeparator?
  {
    var done := m.(outputDone := true);
    if text == "" then
      if m.outputDone then End(m, stale) else Token("", done, "")
    else if m.delims.Kept(text[0]) then
      if m.outputDone then Token(text[..1], m.(outputDone := false), text[1..]) else Token("", done, text)
    else if !m.outputDone && m.delims.Dropped(text[0]) then
      Token("", done, text)
    else
      var rest := if m.delims.Dropped(text[0]) then text[1..] else text;
      var n := RunLength(m.delims, rest);
      Token(rest[..n], done, rest[n..])
  }

  // ----- One call and a whole walk -----

  /** A call of the function object; `stale` is what the token variable holds if the call does not set it. */
  function Next(m: Machine, text: string, stale: string): (s: Step)
    ensures s.Token? ==> Measure(s.m, s.rest) < Measure(m, text) && |s.rest| <= |text|
  {
    match m
    case EscapedList(roles, last) =>
      if text == "" then
        if last then Token("", m.(last := false), "") else End(m, "")
      else (
        match ReadField(roles, text, false)
        case Read(tok, rest, l) => Token(tok, m.(last := l), rest)
        case Failed(e, tok, rest) => Throw(e, tok, rest)
      )
    case CharSeparator(_, DropEmptyTokens, _) => DropStep(m, text, stale)
    case CharSeparator(_, KeepEmptyTokens, _) => KeepStep(m, text, stale)
  }

  /** A call changes only the member that is meant to change. */
  lemma KeepsKind(m: Machine, text: string, stale: string)
    ensures var s := Next(m, text, stale);
            && (s.Token? && m.EscapedList? ==> s.m.EscapedList? && s.m.roles == m.roles)
            && (s.Token? && m.CharSeparator? ==> s.m.CharSeparator? && s.m.delims == m.delims && s.m.policy == m.policy)
  {
  }

  /** A call may return a token without taking any text, but then it changes the machine. */
  function Measure(m: Machine, text: string): nat {
    2 * |text| +
    match m
    case EscapedList(_, last) => if last then 1 else 0
    case CharSeparator(_, DropEmptyTokens, _) => 0
    case CharSeparator(_, KeepEmptyTokens, done) => if done then 0 else 1
  }

  /** A walk ends after at most this many tokens. */
  lemma {:induction false} WalkIsShort(m: Machine, text: string)
    ensures |Walk(m, text).tokens| <= Measure(m, text) <= 2 * |text| + 1
    decreases Measure(m, text)
  {
    match Next(m, text, "")
    case Token(_, m', rest) => WalkIsShort(m', rest);
    case _ =>
  }

  /** The tokens of a walk, and the exception that ended it, if one did. */
  datatype Walked = Walked(tokens: seq<string>, thrown: seq<Error>)

  function Walk(m: Machine, text: string): Walked
    decreases Measure(m, text)
  {
    match Next(m, text, "")
    case Token(tok, m', rest) => var w := Walk(m', rest); Walked([tok] + w.tokens, w.thrown)
    case End(_, _) => Walked([], [])
    case Throw(e, _, _) => Walked([], [e])
  }

  /** The iterator does not call the function on an empty range. */
  function Tokenize(m: Machine, text: string): Walked {
    if text == "" then Walked([], []) else Walk(m, text)
  }

  /** The machine that a walk leaves behind. */
  function Left(m: Machine, text: string): Machine
    decreases Measure(m, text)
  {
    match Next(m, text, "")
    case Token(_, m', rest) => Left(m', rest)
    case End(m', _) => m'
    case Throw(_, _, _) => if m.EscapedList? then m.(last := false) else m
  }

  /** The same for the iterator. */
  function Spent(m: Machine, text: string): Machine {
    if text == "" then m else Left(m, text)
  }

  // ----- Printing and reading escaped lists -----

  /** A character that would end quotes or escape something is escaped. */
  function EscapedChar(roles: Roles, e: char, ch: char): string {
    if ch in roles.escape || ch in roles.quote then [e, ch] else [ch]
  }

  function Escaped(roles: Roles, e: char, s: string): string {
    if s == "" then "" else EscapedChar(roles, e, s[0]) + Escaped(roles, e, s[1..])
  }

  function Quoted(roles: Roles, e: char, q: char, s: string): string {
    [q] + Escaped(roles, e, s) + [q]
  }

  function Printed(roles: Roles, e: char, c: char, q: char, fields: seq<string>): string {
    if fields == [] then ""
    else if |fields| == 1 then Quoted(roles, e, q, fields[0])
    else Quoted(roles, e, q, fields[0]) + [c] + Printed(roles, e, c, q, fields[1..])
  }

  /** How fields are written. */
  lemma PrintedAs(roles: Roles, e: char, c: char, q: char, field: string, more: seq<string>, ch: char, tail: string)
    ensures Printed(roles, e, c, q, []) == ""
    ensures Printed(roles, e, c, q, [field]) == [q] + Escaped(roles, e, field) + [q]
    ensures var all := Printed(roles, e, c, q, [field] + more);
            more != [] ==> all == [q] + Escaped(roles, e, field) + [q] + [c] + Printed(roles, e, c, q, more)
    ensures Escaped(roles, e, "") == ""
    ensures Escaped(roles, e, [ch] + tail)
         == (if ch in roles.escape + roles.quote then [e, ch] else [ch]) + Escaped(roles, e, tail)
  {
    assert ([field] + more)[1..] == more && ([ch] + tail)[1..] == tail;
  }

  /** e, c and q can be told apart, and no escaped character reads as a newline. */
  predicate Readable(roles: Roles, e: char, c: char, q: char) {
    && e in roles.escape
    && c in roles.delimiter && c !in roles.escape
    && q in roles.quote && q !in roles.escape && q !in roles.delimiter
    && 'n' !in roles.escape && 'n' !in roles.quote
  }

  lemma ExtendTwice(a: string, b: string, f: Field)
    ensures Extend(a, Extend(b, f)) == Extend(a + b, f) && Extend("", f) == f
  {
    assert a + (b + f.tok) == (a + b) + f.tok && "" + f.tok == f.tok;
  }

  lemma ReadEscapedChar(roles: Roles, e: char, ch: char, tail: string)
    requires e in roles.escape && 'n' !in roles.escape && 'n' !in roles.quote
    ensures ReadField(roles, EscapedChar(roles, e, ch) + tail, true) == Extend([ch], ReadField(roles, tail, true))
  {
    var text := EscapedChar(roles, e, ch) + tail;
    if ch in roles.escape || ch in roles.quote {
      assert text[2..] == tail;
    } else {
      assert text[1..] == tail;
    }
  }

  lemma {:induction false} ReadEscaped(roles: Roles, e: char, s: string, post: string)
    requires e in roles.escape && 'n' !in roles.escape && 'n' !in roles.quote
    ensures ReadField(roles, Escaped(roles, e, s) + post, true) == Extend(s, ReadField(roles, post, true))
  {
    hide EscapedChar, Extend;
    var f := ReadField(roles, post, true);
    ExtendTwice("", "", f);
    if s == "" {
      assert "" + post == post;
    } else {
      var head, tail := EscapedChar(roles, e, s[0]), Escaped(roles, e, s[1..]);
      ReadEscaped(roles, e, s[1..], post);
      ReadEscapedChar(roles, e, s[0], tail + post);
      ExtendTwice([s[0]], s[1..], f);
      assert [s[0]] + s[1..] == s;
      assert (head + tail) + post == head + (tail + post);
    }
  }

  lemma ReadQuoted(roles: Roles, e: char, q: char, s: string, post: string)
    requires e in roles.escape && 'n' !in roles.escape && 'n' !in roles.quote
    requires q in roles.quote && q !in roles.escape && q !in roles.delimiter
    ensures ReadField(roles, Quoted(roles, e, q, s) + post, false) == Extend(s, ReadField(roles, post, false))
  {
    var body := Escaped(roles, e, s);
    var text := Quoted(roles, e, q, s) + post;
    assert text == [q] + (body + ([q] + post)) && text[1..] == body + ([q] + post);
    ReadEscaped(roles, e, s, [q] + post);
    assert ([q] + post)[1..] == post;
  }

  lemma {:induction false} PrintedReads(roles: Roles, e: char, c: char, q: char, fields: seq<string>, last: bool)
    requires Readable(roles, e, c, q) && fields != []
    ensures Walk(EscapedList(roles, last), Printed(roles, e, c, q, fields)) == Walked(fields, [])
    decreases |fields|
  {
    hide Escaped, EscapedChar;
    var text, s := Printed(roles, e, c, q, fields), fields[0];
    if |fields| == 1 {
      ReadQuoted(roles, e, q, s, "");
      assert Quoted(roles, e, q, s) + "" == text;
      assert Extend(s, Read("", "", false)) == Read(s, "", false);
      assert Walk(EscapedList(roles, false), "") == Walked([], []);
      assert fields == [s] + [];
    } else {
      var rest := Printed(roles, e, c, q, fields[1..]);
      ReadQuoted(roles, e, q, s, [c] + rest);
      assert Quoted(roles, e, q, s) + ([c] + rest) == text;
      assert ([c] + rest)[1..] == rest;
      assert Extend(s, Read("", rest, true)) == Read(s, rest, true);
      PrintedReads(roles, e, c, q, fields[1..], true);
      assert fields == [s] + fields[1..];
    }
  }

  /** Reading undoes printing, for every list of fields. */
  lemma ReadingUndoesPrinting(roles: Roles, e: char, c: char, q: char, fields: seq<string>)
    requires e in roles.escape && c in roles.delimiter && c !in roles.escape
    requires q in roles.quote && q !in roles.escape && q !in roles.delimiter
    requires 'n' !in roles.escape && 'n' !in roles.quote
    ensures Tokenize(EscapedList(roles, false), Printed(roles, e, c, q, fields)) == Walked(fields, [])
  {
    if fields != [] { PrintedReads(roles, e, c, q, fields, false); }
  }

  /** One character for each role, as the first constructor takes them. */
  function Single(e: char, c: char, q: char): Roles { Roles([e], [c], [q]) }

  /** With one character for each role the round trip works exactly when the three are distinct and neither the
      escape nor the quote is the letter n, which after an escape stands for a newline. */
  lemma RoundTripsExactly(e: char, c: char, q: char)
    ensures (forall fields: seq<string> ::
        var roles := Roles([e], [c], [q]);
        Tokenize(EscapedList(roles, false), Printed(roles, e, c, q, fields)) == Walked(fields, []))
      <==> e != c && e != q && c != q && e != 'n' && q != 'n'
  {
    var roles := Single(e, c, q);
    if e != c && e != q && c != q && e != 'n' && q != 'n' {
      forall fields: seq<string>
        ensures Tokenize(EscapedList(roles, false), Printed(roles, e, c, q, fields)) == Walked(fields, [])
      {
        ReadingUndoesPrinting(roles, e, c, q, fields);
      }
    } else if e == q || c == q {
      EmptyFieldFails(e, c, q);
    } else if e == c {
      TwoEmptyFieldsFail(e, q);
    } else {
      LetterNFails(e, c, q);
    }
  }

  lemma FirstToken(roles: Roles, text: string)
    requires text != ""
    ensures var f, w := ReadField(roles, text, false), Walk(EscapedList(roles, false), text);
            if f.Read? then |w.tokens| > 0 && w.tokens[0] == f.tok else |w.thrown| == 1
  {
  }

  lemma EmptyFieldFails(e: char, c: char, q: char)
    requires e == q || c == q
    ensures Tokenize(EscapedList(Single(e, c, q), false), Printed(Single(e, c, q), e, c, q, [""])) != Walked([""], [])
  {
    var roles := Single(e, c, q);
    var text := Printed(roles, e, c, q, [""]);
    assert text == [q, q];
    if e == q {
      assert text[2..] == "";
      var f := ReadField(roles, text, false);
      assert f.tok != "";
      FirstToken(roles, text);
    } else {
      assert text[1..] == [q];
      var w := Walk(EscapedList(roles, true), [q]);
      assert Walk(EscapedList(roles, false), text).tokens == [""] + w.tokens;
      assert ReadField(roles, [q], false) == Read("", [q][1..], true);
      assert |w.tokens| >= 1;
    }
  }

  lemma TwoEmptyFieldsFail(e: char, q: char)
    requires e != q
    ensures Tokenize(EscapedList(Single(e, e, q), false), Printed(Single(e, e, q), e, e, q, ["", ""]))
         != Walked(["", ""], [])
  {
    var roles := Single(e, e, q);
    var text := Printed(roles, e, e, q, ["", ""]);
    assert Printed(roles, e, e, q, [""]) == [q, q];
    assert text == [q, q] + [e] + [q, q] == [q, q, e, q, q];
    assert text[1..] == [q, e, q, q] && text[1..][1..] == [e, q, q] && [e, q, q][2..] == [q];
    var f := ReadField(roles, [e, q, q], false);
    assert f.tok != "";
    assert ReadField(roles, text, false) == f;
    FirstToken(roles, text);
  }

  lemma LetterNFails(e: char, c: char, q: char)
    requires e != c && e != q && c != q && (e == 'n' || q == 'n')
    ensures Tokenize(EscapedList(Single(e, c, q), false), Printed(Single(e, c, q), e, c, q, ["n"])) != Walked(["n"], [])
  {
    var roles := Single(e, c, q);
    var text := Printed(roles, e, c, q, ["n"]);
    assert Escaped(roles, e, "n") == [e, 'n'] by { assert "n"[1..] == ""; }
    assert text == [q, e, 'n', q];
    assert text[1..] == [e, 'n', q] && text[1..][2..] == [q];
    var f := ReadField(roles, text[1..], true);
    assert f == Extend("\n", ReadField(roles, [q], true));
    assert f.tok[0] == '\n';
    assert ReadField(roles, text, false) == f;
    FirstToken(roles, text);
  }

  // ----- Splitting at delimiters -----

  /** Split at every delimiter: n delimiters give n + 1 fields, and each kept delimiter stands between its two. */
  function FullSplit(d: Delimiters, keeps: char -> bool, text: string): (tokens: seq<string>)
    decreases |text|, 1
  {
    var n := RunLength(d, text);
    [text[..n]] + AfterField(d, keeps, text[n..])
  }

  /** What follows a field: nothing at the end, otherwise a delimiter and the split of the rest. */
  function AfterField(d: Delimiters, keeps: char -> bool, text: string): (tokens: seq<string>)
    decreases |text|, 0
  {
    if text == "" then []
    else (if keeps(text[0]) then [[text[0]]] else []) + FullSplit(d, keeps, text[1..])
  }

  /** Which delimiters are tokens: every kept one in the one mode; in the other a dropped one is skipped first. */
  function Keeping(d: Delimiters): char -> bool { ch => d.Kept(ch) }

  function KeepingUndropped(d: Delimiters): char -> bool { ch => d.Kept(ch) && !d.Dropped(ch) }

  function Flatten(tokens: seq<string>): string {
    if tokens == [] then "" else tokens[0] + Flatten(tokens[1..])
  }

  /** The text without the delimiters that are not tokens. */
  function Remaining(d: Delimiters, keeps: char -> bool, text: string): string {
    if text == "" then ""
    else (if d.Delimits(text[0]) && !keeps(text[0]) then "" else [text[0]]) + Remaining(d, keeps, text[1..])
  }

  function NonEmpty(tokens: seq<string>): seq<string> {
    if tokens == [] then [] else (if tokens[0] == "" then [] else [tokens[0]]) + NonEmpty(tokens[1..])
  }

  lemma {:induction false} FlattenAppend(a: seq<string>, b: seq<string>)
    ensures Flatten(a + b) == Flatten(a) + Flatten(b)
  {
    if a == [] {
      assert a + b == b;
    } else {
      assert (a + b)[1..] == a[1..] + b;
      FlattenAppend(a[1..], b);
    }
  }

  lemma {:induction false} NonEmptyAppend(a: seq<string>, b: seq<string>)
    ensures NonEmpty(a + b) == NonEmpty(a) + NonEmpty(b)
  {
    if a == [] {
      assert a + b == b;
    } else {
      assert (a + b)[1..] == a[1..] + b;
      NonEmptyAppend(a[1..], b);
    }
  }

  lemma SingleToken(t: string)
    ensures Flatten([t]) == t && NonEmpty([t]) == if t == "" then [] else [t]
  {
    assert [t][1..] == [] && t + "" == t;
  }

  lemma {:induction false} NonEmptyFlattens(tokens: seq<string>)
    ensures Flatten(NonEmpty(tokens)) == Flatten(tokens)
    ensures forall t <- NonEmpty(tokens) :: t != "" && t in tokens
  {
    if tokens != [] {
      NonEmptyFlattens(tokens[1..]);
      SingleToken(tokens[0]);
      FlattenAppend(if tokens[0] == "" then [] else [tokens[0]], NonEmpty(tokens[1..]));
    }
  }

  /** A delimiter-free run is kept whole. */
  lemma {:induction false} RunRemains(d: Delimiters, keeps: char -> bool, run: string, post: string)
    requires forall i :: 0 <= i < |run| ==> !d.Delimits(run[i])
    ensures Remaining(d, keeps, run + post) == run + Remaining(d, keeps, post)
    decreases |run|
  {
    if run == "" {
      assert run + post == post;
    } else {
      assert (run + post)[1..] == run[1..] + post;
      RunRemains(d, keeps, run[1..], post);
    }
  }

  /** The split conserves the text. */
  lemma {:induction false} SplitConserves(d: Delimiters, keeps: char -> bool, text: string)
    ensures Flatten(FullSplit(d, keeps, text)) == Remaining(d, keeps, text)
    decreases |text|
  {
    var n := RunLength(d, text);
    var run, post := text[..n], text[n..];
    assert text == run + post;
    RunRemains(d, keeps, run, post);
    FlattenAppend([run], AfterField(d, keeps, post));
    SingleToken(run);
    if post != "" {
      SplitConserves(d, keeps, post[1..]);
      SingleToken([post[0]]);
      FlattenAppend(if keeps(post[0]) then [[post[0]]] else [], FullSplit(d, keeps, post[1..]));
    }
  }

  /** Each token is a kept delimiter or free of delimiters. */
  predicate WellSplit(d: Delimiters, keeps: char -> bool, t: string) {
    (|t| == 1 && d.Delimits(t[0]) && keeps(t[0])) || forall i :: 0 <= i < |t| ==> !d.Delimits(t[i])
  }

  lemma {:induction false} SplitTokens(d: Delimiters, keeps: char -> bool, text: string)
    ensures forall t <- FullSplit(d, keeps, text) :: WellSplit(d, keeps, t)
    decreases |text|
  {
    var n := RunLength(d, text);
    var post := text[n..];
    if post != "" {
      SplitTokens(d, keeps, post[1..]);
      assert d.Delimits(post[0]);
    }
  }

  lemma RunLengthIs(d: Delimiters, text: string, n: nat)
    requires n <= |text| && (forall i :: 0 <= i < n ==> !d.Delimits(text[i])) && (n < |text| ==> d.Delimits(text[n]))
    ensures RunLength(d, text) == n
  {
  }

  /** A text without delimiters is one field, and a delimiter separates what lies on its two sides. */
  lemma SplitRun(d: Delimiters, keeps: char -> bool, text: string)
    requires forall ch <- text :: !d.Delimits(ch)
    ensures FullSplit(d, keeps, text) == [text]
  {
    RunLengthIs(d, text, |text|);
    assert text[..|text|] == text;
  }

  lemma {:induction false} SplitAt(d: Delimiters, keeps: char -> bool, a: string, ch: char, b: string)
    requires d.Delimits(ch)
    ensures FullSplit(d, keeps, a + [ch] + b)
         == FullSplit(d, keeps, a) + (if keeps(ch) then [[ch]] else []) + FullSplit(d, keeps, b)
    decreases |a|
  {
    hide *;
    var n, middle, last := RunLength(d, a), if keeps(ch) then [[ch]] else [], FullSplit(d, keeps, b);
    FirstField(d, a, ch, b);
    SplitOf(d, keeps, a);
    SplitOf(d, keeps, a + [ch] + b);
    if n == |a| {
      AfterDelimiter(d, keeps, ch, b);
      Reassociate([a[..n]], [], middle, last);
    } else {
      var c, a' := a[n], a[n..][1..];
      var between := if keeps(c) then [[c]] else [];
      assert a[n..] == [c] + a' && a[n..] + [ch] + b == [c] + (a' + [ch] + b);
      AfterDelimiter(d, keeps, c, a');
      AfterDelimiter(d, keeps, c, a' + [ch] + b);
      SplitAt(d, keeps, a', ch, b);
      Reassociate([a[..n]], between + FullSplit(d, keeps, a'), middle, last);
      Reassociate(between, FullSplit(d, keeps, a'), middle, last);
    }
  }

  lemma SplitOf(d: Delimiters, keeps: char -> bool, text: string)
    ensures var n := RunLength(d, text); FullSplit(d, keeps, text) == [text[..n]] + AfterField(d, keeps, text[n..])
    ensures AfterField(d, keeps, "") == []
  {
  }

  lemma AfterDelimiter(d: Delimiters, keeps: char -> bool, ch: char, b: string)
    ensures AfterField(d, keeps, [ch] + b) == (if keeps(ch) then [[ch]] else []) + FullSplit(d, keeps, b)
  {
    assert ([ch] + b)[1..] == b;
  }

  lemma Reassociate(w: seq<string>, x: seq<string>, y: seq<string>, z: seq<string>)
    ensures w + (x + y + z) == (w + x) + y + z && w + [] == w
    ensures x == [] ==> w + (y + z) == w + y + z
  {
  }

  /** The first field of a + ch + b is that of a. */
  lemma FirstField(d: Delimiters, a: string, ch: char, b: string)
    requires d.Delimits(ch)
    ensures var text, n := a + [ch] + b, RunLength(d, a);
            && RunLength(d, text) == n && text[..n] == a[..n] && text[n..] == a[n..] + [ch] + b
            && (n == |a| ==> text[n..] == [ch] + b)
  {
    hide Delimiters.Delimits, RunLength;
    var text, n := a + [ch] + b, RunLength(d, a);
    assert forall i :: 0 <= i < |a| ==> text[i] == a[i];
    assert text[|a|] == ch;
    RunLengthIs(d, text, n);
  }

  // ----- What char_separator yields -----

  /** Keeping empty tokens, the walk is the full split; a walk that starts where a field has just been put out lacks
      that field. */
  lemma {:induction false} KeepWalk(d: Delimiters, done: bool, text: string)
    ensures Walk(CharSeparator(d, KeepEmptyTokens, done), text)
         == Walked(if done && (text == "" || d.Delimits(text[0])) then AfterField(d, Keeping(d), text)
                   else FullSplit(d, Keeping(d), text), [])
    decreases 2 * |text| + if done then 0 else 1
  {
    var m, k := CharSeparator(d, KeepEmptyTokens, done), Keeping(d);
    var s := Next(m, text, "");
    if s.Token? {
      KeepWalk(d, s.m.outputDone, s.rest);
    }
    if text == "" || d.Delimits(text[0]) {
      assert text[..0] == "" && text[0..] == text;
    }
    if text != "" && d.Kept(text[0]) {
      assert text[..1] == [text[0]];
    }
  }

  lemma SkipOne(d: Delimiters, text: string)
    requires text != "" && d.Dropped(text[0])
    ensures NonEmpty(FullSplit(d, KeepingUndropped(d), text))
         == NonEmpty(FullSplit(d, KeepingUndropped(d), text[1..]))
  {
    var k := KeepingUndropped(d);
    assert text[..0] == "" && text[0..] == text;
    SingleToken("");
    NonEmptyAppend([""], AfterField(d, k, text));
    assert AfterField(d, k, text) == FullSplit(d, k, text[1..]);
  }

  lemma {:induction false} SkipAll(d: Delimiters, text: string)
    ensures NonEmpty(FullSplit(d, KeepingUndropped(d), text))
         == NonEmpty(FullSplit(d, KeepingUndropped(d), SkipDropped(d, text)))
    decreases |text|
  {
    if text != "" && d.Dropped(text[0]) {
      SkipOne(d, text);
      SkipAll(d, text[1..]);
    }
  }

  /** Where a field would be empty, the split drops it. */
  lemma EmptyFieldDropped(d: Delimiters, text: string)
    requires text == "" || d.Delimits(text[0])
    ensures NonEmpty(FullSplit(d, KeepingUndropped(d), text)) == NonEmpty(AfterField(d, KeepingUndropped(d), text))
  {
    assert text[..0] == "" && text[0..] == text;
    SingleToken("");
    NonEmptyAppend([""], AfterField(d, KeepingUndropped(d), text));
  }

  /** Dropping empty tokens, the walk is the full split without its empty fields; a delimiter that is to be dropped
      is skipped even if it is listed as kept. */
  lemma {:induction false} DropWalk(d: Delimiters, done: bool, text: string)
    ensures Walk(CharSeparator(d, DropEmptyTokens, done), text)
         == Walked(NonEmpty(FullSplit(d, KeepingUndropped(d), text)), [])
    decreases |text|
  {
    var m, k := CharSeparator(d, DropEmptyTokens, done), KeepingUndropped(d);
    var rest := SkipDropped(d, text);
    SkipAll(d, text);
    if rest == "" {
      SingleToken("");
      assert FullSplit(d, k, "") == [""];
    } else if d.Kept(rest[0]) {
      DropWalk(d, done, rest[1..]);
      EmptyFieldDropped(d, rest);
      SingleToken([rest[0]]);
      NonEmptyAppend([[rest[0]]], FullSplit(d, k, rest[1..]));
      assert rest[..1] == [rest[0]];
    } else {
      var n := RunLength(d, rest);
      DropWalk(d, done, rest[n..]);
      EmptyFieldDropped(d, rest[n..]);
      SingleToken(rest[..n]);
      NonEmptyAppend([rest[..n]], AfterField(d, k, rest[n..]));
    }
  }

  /** Starting on non-empty text, `char_separator` in the keeping mode yields the full split exactly when its
      `m_output_done` is clear or no delimiter comes first. `reset` does not clear it. */
  lemma KeepYieldsSplit(d: Delimiters, done: bool, text: string)
    requires text != ""
    ensures Tokenize(CharSeparator(d, KeepEmptyTokens, done), text) == Walked(FullSplit(d, Keeping(d), text), [])
        <==> !done || !d.Delimits(text[0])
  {
    KeepWalk(d, done, text);
    assert d.Delimits(text[0]) ==> text[..0] == "" && text[0..] == text;
    if done && d.Delimits(text[0]) {
      assert |FullSplit(d, Keeping(d), text)| == 1 + |AfterField(d, Keeping(d), text)|;
    }
  }

  /** A walk of the keeping policy ends only when the flag is set. */
  lemma {:induction false} KeepLeavesDone(d: Delimiters, done: bool, text: string)
    ensures Left(CharSeparator(d, KeepEmptyTokens, done), text) == CharSeparator(d, KeepEmptyTokens, true)
    decreases 2 * |text| + if done then 0 else 1
  {
    var s := Next(CharSeparator(d, KeepEmptyTokens, done), text, "");
    if s.Token? { KeepLeavesDone(d, s.m.outputDone, s.rest); }
  }

  /** A second walk by a function object that has walked some text yields the full split exactly when its text does
      not begin with a delimiter. `reset`, called in between, does not help. An empty first text leaves the object
      unused. */
  lemma SecondWalk(d: Delimiters, done: bool, first: string, second: string)
    requires second != ""
    ensures var m := Spent(CharSeparator(d, KeepEmptyTokens, done), first);
            var full := Walked(FullSplit(d, Keeping(d), second), []);
            Tokenize(Restarted(m), second) == full <==> (first == "" && !done) || !d.Delimits(second[0])
  {
    KeepLeavesDone(d, done, first);
    KeepYieldsSplit(d, first != "" || done, second);
  }

  /** After "a", the text ",b" gives one token; a new function object gives two. */
  lemma SecondWalkLosesField(d: Delimiters)
    requires d == Delimiters("", ",", false, false, ch => false, ch => false)
    ensures var m := CharSeparator(d, KeepEmptyTokens, false);
            && Tokenize(m, ",b") == Walked(["", "b"], [])
            && Tokenize(Restarted(Spent(m, "a")), ",b") == Walked(["b"], [])
  {
    KeepLeavesDone(d, false, "a");
    KeepWalk(d, false, ",b");
    KeepWalk(d, true, ",b");
    assert ",b"[1..] == "b" && ",b"[..0] == "" && ",b"[0..] == ",b" && "b"[1..] == "" && "b"[..1] == "b";
    assert RunLength(d, ",b") == 0 && RunLength(d, "b") == 1;
    assert FullSplit(d, Keeping(d), "b") == ["b"];
  }

  /** Dropping empty tokens conserves the rest of the text, in pieces of the right kind and none empty. */
  lemma DropConserves(d: Delimiters, done: bool, text: string)
    ensures var w := Tokenize(CharSeparator(d, DropEmptyTokens, done), text);
            && w.thrown == []
            && w.tokens == NonEmpty(FullSplit(d, KeepingUndropped(d), text))
            && Flatten(w.tokens) == Remaining(d, KeepingUndropped(d), text)
            && forall t <- w.tokens :: t != "" &&
                 ((|t| == 1 && d.Kept(t[0]) && !d.Dropped(t[0])) || forall i :: 0 <= i < |t| ==> !d.Delimits(t[i]))
  {
    var k := KeepingUndropped(d);
    DropWalk(d, done, text);
    SplitConserves(d, k, text);
    SplitTokens(d, k, text);
    NonEmptyFlattens(FullSplit(d, k, text));
    SingleToken("");
    assert FullSplit(d, k, "") == [""];
  }

  // ----- The delimiters that the constructors make -----

  /** The text without some characters. */
  function Without(text: string, gone: char -> bool): string {
    if text == "" then "" else (if gone(text[0]) then "" else [text[0]]) + Without(text[1..], gone)
  }

  lemma WithoutOne(gone: char -> bool, ch: char)
    ensures Without("", gone) == "" && Without([ch], gone) == if gone(ch) then "" else [ch]
  {
    assert [ch][1..] == "";
  }

  lemma {:induction false} WithoutAppend(gone: char -> bool, a: string, b: string)
    ensures Without(a + b, gone) == Without(a, gone) + Without(b, gone)
    decreases |a|
  {
    if a == "" {
      assert a + b == b;
    } else {
      assert (a + b)[1..] == a[1..] + b;
      WithoutAppend(gone, a[1..], b);
    }
  }

  lemma {:induction false} RemainingIs(d: Delimiters, gone: char -> bool, text: string)
    requires forall ch :: d.Dropped(ch) <==> gone(ch)
    ensures Remaining(d, KeepingUndropped(d), text) == Without(text, gone)
  {
    if text != "" { RemainingIs(d, gone, text[1..]); }
  }

  /** Where the text has a delimiter, the walk falls into two. */
  lemma WalksAt(d: Delimiters, done: bool, a: string, ch: char, b: string)
    requires d.Delimits(ch)
    ensures var m := CharSeparator(d, DropEmptyTokens, done);
            Walk(m, a + [ch] + b).tokens
            == Walk(m, a).tokens + (if d.Kept(ch) && !d.Dropped(ch) then [[ch]] else []) + Walk(m, b).tokens
    ensures var m := CharSeparator(d, KeepEmptyTokens, false);
            Walk(m, a + [ch] + b).tokens
            == Walk(m, a).tokens + (if d.Kept(ch) then [[ch]] else []) + Walk(m, b).tokens
  {
    hide Walk, FullSplit, Delimiters.Kept, Delimiters.Dropped;
    var text, k := a + [ch] + b, KeepingUndropped(d);
    DropWalk(d, done, text);
    DropWalk(d, done, a);
    DropWalk(d, done, b);
    KeepWalk(d, false, text);
    KeepWalk(d, false, a);
    KeepWalk(d, false, b);
    SplitAt(d, k, a, ch, b);
    SplitAt(d, Keeping(d), a, ch, b);
    var middle := if k(ch) then [[ch]] else [];
    NonEmptyAppend(FullSplit(d, k, a) + middle, FullSplit(d, k, b));
    NonEmptyAppend(FullSplit(d, k, a), middle);
    SingleToken([ch]);
  }

  lemma WalkOfRun(d: Delimiters, done: bool, text: string)
    requires forall ch <- text :: !d.Delimits(ch)
    ensures Walk(CharSeparator(d, DropEmptyTokens, done), text) == Walked(if text == "" then [] else [text], [])
    ensures Walk(CharSeparator(d, KeepEmptyTokens, false), text) == Walked([text], [])
  {
    hide Walk, FullSplit;
    DropWalk(d, done, text);
    KeepWalk(d, false, text);
    SplitRun(d, KeepingUndropped(d), text);
    SplitRun(d, Keeping(d), text);
    SingleToken(text);
  }

  /** With the delimiters listed, a character of either string splits the text, and puts itself between the parts if
      it is listed as kept; when empty tokens are dropped, only if it is not listed as dropped too. With
      `ListedRuns` this determines the tokens of every text. */
  lemma ListedDelimiters(kept: string, dropped: string, punct: char -> bool, space: char -> bool, done: bool,
      a: string, ch: char, b: string)
    requires ch in kept || ch in dropped
    ensures var m := CharSeparator(Delimiters(kept, dropped, false, false, punct, space), DropEmptyTokens, done);
            Walk(m, a + [ch] + b).tokens
            == Walk(m, a).tokens + (if ch in kept && ch !in dropped then [[ch]] else []) + Walk(m, b).tokens
    ensures var m := CharSeparator(Delimiters(kept, dropped, false, false, punct, space), KeepEmptyTokens, false);
            Walk(m, a + [ch] + b).tokens
            == Walk(m, a).tokens + (if ch in kept then [[ch]] else []) + Walk(m, b).tokens
  {
    hide Walk;
    WalksAt(Delimiters(kept, dropped, false, false, punct, space), done, a, ch, b);
  }

  lemma ListedRuns(kept: string, dropped: string, punct: char -> bool, space: char -> bool, done: bool, text: string)
    requires forall ch <- text :: ch !in kept && ch !in dropped
    ensures var d := Delimiters(kept, dropped, false, false, punct, space);
            && Walk(CharSeparator(d, DropEmptyTokens, done), text) == Walked(if text == "" then [] else [text], [])
            && Walk(CharSeparator(d, KeepEmptyTokens, false), text) == Walked([text], [])
  {
    hide Walk;
    WalkOfRun(Delimiters(kept, dropped, false, false, punct, space), done, text);
  }

  /** Dropping empty tokens, the tokens joined are the text without the characters listed as dropped, and a listed
      character is in no token but the one that it is by itself. */
  lemma ListedConserves(kept: string, dropped: string, punct: char -> bool, space: char -> bool, done: bool,
      text: string)
    ensures var d := Delimiters(kept, dropped, false, false, punct, space);
            var w := Tokenize(CharSeparator(d, DropEmptyTokens, done), text);
            && w.thrown == [] && Flatten(w.tokens) == Without(text, ch => ch in dropped)
            && forall t, i :: t in w.tokens && 0 <= i < |t| && (t[i] in kept || t[i] in dropped) ==>
                 t[i] in kept && t[i] !in dropped && t == [t[i]]
  {
    hide Walk, Tokenize, Flatten, Without, NonEmpty, FullSplit, Remaining;
    var d := Delimiters(kept, dropped, false, false, punct, space);
    DropConserves(d, done, text);
    RemainingIs(d, ch => ch in dropped, text);
  }

  /** The same with the character classes of the default constructor. */
  lemma ClassDelimiters(punct: char -> bool, space: char -> bool, done: bool, a: string, ch: char, b: string)
    requires punct(ch) || space(ch)
    ensures var m := CharSeparator(Delimiters("", "", true, true, punct, space), DropEmptyTokens, done);
            Walk(m, a + [ch] + b).tokens
            == Walk(m, a).tokens + (if punct(ch) && !space(ch) then [[ch]] else []) + Walk(m, b).tokens
    ensures var m := CharSeparator(Delimiters("", "", true, true, punct, space), KeepEmptyTokens, false);
            Walk(m, a + [ch] + b).tokens
            == Walk(m, a).tokens + (if punct(ch) then [[ch]] else []) + Walk(m, b).tokens
  {
    hide Walk;
    WalksAt(Delimiters("", "", true, true, punct, space), done, a, ch, b);
  }

  lemma ClassRuns(punct: char -> bool, space: char -> bool, done: bool, text: string)
    requires forall ch <- text :: !punct(ch) && !space(ch)
    ensures var d := Delimiters("", "", true, true, punct, space);
            && Walk(CharSeparator(d, DropEmptyTokens, done), text) == Walked(if text == "" then [] else [text], [])
            && Walk(CharSeparator(d, KeepEmptyTokens, false), text) == Walked([text], [])
  {
    hide Walk;
    WalkOfRun(Delimiters("", "", true, true, punct, space), done, text);
  }

  lemma ClassConserves(punct: char -> bool, space: char -> bool, done: bool, text: string)
    ensures var w := Tokenize(CharSeparator(Delimiters("", "", true, true, punct, space), DropEmptyTokens, done), text);
            && w.thrown == [] && Flatten(w.tokens) == Without(text, space)
            && forall t, i :: t in w.tokens && 0 <= i < |t| && (punct(t[i]) || space(t[i])) ==>
                 punct(t[i]) && !space(t[i]) && t == [t[i]]
  {
    hide Walk, Tokenize, Flatten, Without, NonEmpty, FullSplit, Remaining;
    var d := Delimiters("", "", true, true, punct, space);
    DropConserves(d, done, text);
    RemainingIs(d, space, text);
  }

  // ----- The two policies -----

  lemma {:induction false} SplitCongruent(d: Delimiters, k: char -> bool, k': char -> bool, text: string)
    requires forall ch :: k(ch) == k'(ch)
    ensures FullSplit(d, k, text) == FullSplit(d, k', text)
    decreases |text|
  {
    var n := RunLength(d, text);
    if n < |text| { SplitCongruent(d, k, k', text[n..][1..]); }
  }

  /** The two policies differ by nothing but empty tokens exactly when no character is both kept and dropped. */
  lemma PoliciesAgree(d: Delimiters)
    ensures (forall text: string ::
        Tokenize(CharSeparator(d, DropEmptyTokens, false), text).tokens
        == NonEmpty(Tokenize(CharSeparator(d, KeepEmptyTokens, false), text).tokens))
      <==> !exists ch :: d.Kept(ch) && d.Dropped(ch)
  {
    if !exists ch :: d.Kept(ch) && d.Dropped(ch) {
      forall text: string
        ensures Tokenize(CharSeparator(d, DropEmptyTokens, false), text).tokens
             == NonEmpty(Tokenize(CharSeparator(d, KeepEmptyTokens, false), text).tokens)
      {
        DropWalk(d, false, text);
        KeepWalk(d, false, text);
        SplitCongruent(d, Keeping(d), KeepingUndropped(d), text);
      }
    } else {
      var ch :| d.Kept(ch) && d.Dropped(ch);
      var text := [ch];
      assert text[1..] == "" && text[..1] == text;
      DropWalk(d, false, text);
      SkipOne(d, text);
      SingleToken("");
      assert FullSplit(d, KeepingUndropped(d), "") == [""];
      assert Tokenize(CharSeparator(d, DropEmptyTokens, false), text).tokens == [];
      KeepWalk(d, false, text);
      assert text[..0] == "" && text[0..] == text;
      var split := FullSplit(d, Keeping(d), text);
      assert split[1] == text;
      NonEmptyKeeps(split, 1);
    }
  }

  lemma {:induction false} NonEmptyKeeps(tokens: seq<string>, i: nat)
    requires i < |tokens| && tokens[i] != ""
    ensures NonEmpty(tokens) != []
  {
    if i > 0 { NonEmptyKeeps(tokens[1..], i - 1); }
  }

  // ----- The driver's view -----

  /** The variable that a call leaves alone decides nothing but its own value at the end. */
  lemma StaleIsHarmless(m: Machine, text: string, stale: string)
    ensures var s, s' := Next(m, text, ""), Next(m, text, stale);
            if s.End? then s'.End? && s'.endM == s.endM else s' == s
  {
  }

  lemma RestartedIs(m: Machine)
    ensures m.EscapedList? ==> Restarted(m) == EscapedList(m.roles, false)
    ensures m.CharSeparator? ==> Restarted(m) == m
  {
  }

  /** `reset` as the iterator calls it. */
  function Restarted(m: Machine): Machine {
    if m.EscapedList? then m.(last := false) else m
  }

  /** The next call returns a token without taking any text. */
  predicate Lingers(m: Machine, text: string) {
    match m
    case EscapedList(_, last) => text == "" && last
    case CharSeparator(d, policy, done) => policy.KeepEmptyTokens? && !done && (text == "" || d.Delimits(text[0]))
  }

  lemma StaysPut(m: Machine, text: string, stale: string)
    ensures var s := Next(m, text, stale); s.Token? && s.rest == text <==> Lingers(m, text)
  {
    if m.CharSeparator? && m.policy.DropEmptyTokens? {
      var rest := SkipDropped(m.delims, text);
      if rest != "" { assert |DropStep(m, text, stale).rest| < |text|; }
    }
  }
}
