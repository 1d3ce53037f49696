/** The tokenizer function objects and the iterator that drives them. Iterators into the text are indices. */
module Tokenizers {
  import opened Separators

  /** What a call returns: true, false, or an exception. */
  datatype Result = Found | Exhausted | Thrown(error: Error)

  /** The outcome of a call, in the variables the code sets, is the step the machine takes. */
  ghost predicate Took(s: Step, m: Machine, m': Machine, text: string, next: nat, tok: string, result: Result) {
    && next <= |text|
    && match s
       case Token(t, m1, rest) => result == Found && tok == t && m' == m1 && text[next..] == rest
       case End(m1, t) => result == Exhausted && tok == t && m' == m1 && next == |text|
       case Throw(e, partial, from) =>
         m.EscapedList? && result == Thrown(e) && tok == partial && m' == m.(last := false) && text[next..] == from
  }

  /** The parts of an outcome. */
  lemma OutcomeOf(s: Step, m: Machine, m': Machine, text: string, next: nat, tok: string, result: Result)
    requires Took(s, m, m', text, next, tok, result)
    ensures next <= |text|
    ensures s.Token? ==> result == Found && tok == s.tok && m' == s.m && text[next..] == s.rest
    ensures s.End? ==> result == Exhausted && tok == s.endTok && m' == s.endM && next == |text|
    ensures s.Throw? ==> result == Thrown(s.error) && tok == s.partial && text[next..] == s.from
    ensures s.Throw? ==> m.EscapedList? && m' == EscapedList(m.roles, false)
  {
  }

  // ----- escaped_list_separator -----

  class EscapedListSeparator {
    const roles: Roles
    var last: bool

    function M(): Machine
      reads this
    {
      EscapedList(roles, last)
    }

    constructor (roles: Roles, last: bool)
      ensures M() == EscapedList(roles, last)
    {
      this.roles, this.last := roles, last;
    }

    /** The constructors of the source: a character or a string for each role. */
    constructor FromCharacters(e: char, c: char, q: char)
      ensures M() == EscapedList(Roles([e], [c], [q]), false)
    {
      roles, last := Roles([e], [c], [q]), false;
    }

    constructor FromStrings(e: string, c: string, q: string)
      ensures M() == EscapedList(Roles(e, c, q), false)
    {
      roles, last := Roles(e, c, q), false;
    }

    method Reset()
      modifies this
      ensures M() == Restarted(old(M())) == EscapedList(roles, false)
    {
      last := false;
    }

    /** `do_escape`: reads the character after the escape. */
    method DoEscape(text: string, next: nat, tok: string) returns (next': nat, tok': string, result: Result)
      requires next < |text|
      ensures next' == next + 1
      ensures result == if next' == |text| then Thrown(CannotEndWithEscape)
                        else if text[next'] == 'n' || text[next'] in roles.quote + roles.delimiter + roles.escape
                        then Found
                        else Thrown(UnknownEscapeSequence)
      ensures tok' == if !result.Found? then tok else tok + if text[next'] == 'n' then "\n" else [text[next']]
    {
      next', tok' := next + 1, tok;
      if next' == |text| { return next', tok', Thrown(CannotEndWithEscape); }
      var ch := text[next'];
      if ch == 'n' {
        tok' := tok' + "\n";
      } else if ch in roles.quote {
        tok' := tok' + [ch];
      } else if ch in roles.delimiter {
        tok' := tok' + [ch];
      } else if ch in roles.escape {
        tok' := tok' + [ch];
      } else {
        return next', tok', Thrown(UnknownEscapeSequence);
      }
      result := Found;
    }

    method Call(text: string, begin: nat) returns (next: nat, tok: string, result: Result)
      requires begin <= |text|
      modifies this
      ensures Took(Next(old(M()), text[begin..], ""), old(M()), M(), text, next, tok, result)
    {
      hide Next, FieldFrom;
      var inQuote := false;
      next, tok := begin, "";
      FieldDecides(roles, last, text, begin);
      if next == |text| {
        if last {
          last := false;
          return next, tok, Found;
        } else {
          return next, tok, Exhausted;
        }
      }
      last := false;
      ghost var field := FieldFrom(roles, text, begin, false, "");
      while next != |text|
        invariant begin <= next <= |text| && !last && field == FieldFrom(roles, text, next, inQuote, tok)
        decreases |text| - next
      {
        if text[next] in roles.escape {
          ghost var start, acc := next, tok;
          var escaped: Result;
          next, tok, escaped := DoEscape(text, next, tok);
          EscapeStep(roles, text, start, inQuote, acc, next, tok, escaped);
          if escaped.Thrown? { return next, tok, escaped; }
        } else {
          FieldStep(roles, text, next, inQuote, tok);
          if text[next] in roles.delimiter {
            if !inQuote {
              next := next + 1;
              last := true;
              return next, tok, Found;
            } else {
              tok := tok + [text[next]];
            }
          } else if text[next] in roles.quote {
            inQuote := !inQuote;
          } else {
            tok := tok + [text[next]];
          }
        }
        next := next + 1;
      }
      FieldEnd(roles, text, inQuote, tok);
      result := Found;
    }
  }

  /** The field being read, when `acc` has been read of it and the text from `next` on is left. */
  function FieldFrom(roles: Roles, text: string, next: nat, inQuote: bool, acc: string): Field
    requires next <= |text|
  {
    Extend(acc, ReadField(roles, text[next..], inQuote))
  }

  /** The call's outcome is that of the field, or of the flag at the end of the text. */
  lemma FieldDecides(roles: Roles, last: bool, text: string, begin: nat)
    requires begin <= |text|
    ensures var m, rest := EscapedList(roles, last), text[begin..];
            if begin == |text| then
              Next(m, rest, "") == if last then Token("", EscapedList(roles, false), "") else End(m, "")
            else match FieldFrom(roles, text, begin, false, "")
              case Read(tok, rest', l) => Next(m, rest, "") == Token(tok, EscapedList(roles, l), rest')
              case Failed(e, tok, rest') => Next(m, rest, "") == Throw(e, tok, rest')
  {
    ExtendTwice("", "", ReadField(roles, text[begin..], false));
  }

  lemma FieldEnd(roles: Roles, text: string, inQuote: bool, acc: string)
    ensures FieldFrom(roles, text, |text|, inQuote, acc) == Read(acc, "", false)
  {
    assert acc + "" == acc;
  }

  /** A character that is not an escape, as the loop treats it. */
  lemma FieldStep(roles: Roles, text: string, next: nat, inQuote: bool, acc: string)
    requires next < |text| && text[next] !in roles.escape
    ensures var f, ch := FieldFrom(roles, text, next, inQuote, acc), text[next];
            if ch in roles.delimiter && !inQuote then f == Read(acc, text[next + 1..], true)
            else if ch in roles.delimiter || ch !in roles.quote
            then f == FieldFrom(roles, text, next + 1, inQuote, acc + [ch])
            else f == FieldFrom(roles, text, next + 1, !inQuote, acc)
  {
    Unread(text, next);
    ExtendTwice(acc, [text[next]], ReadField(roles, text[next + 1..], inQuote));
    assert acc + "" == acc;
  }

  lemma Unread(text: string, next: nat)
    requires next < |text|
    ensures text[next..] != "" && text[next..][0] == text[next] && text[next..][1..] == text[next + 1..]
    ensures next + 1 < |text| ==> text[next..][1] == text[next + 1] && text[next..][2..] == text[next + 2..]
  {
  }

  lemma EscapeStep(roles: Roles, text: string, start: nat, inQuote: bool, acc: string, next: nat, tok: string,
      escaped: Result)
    requires start < |text| && text[start] in roles.escape && next == start + 1
    requires escaped == if next == |text| then Thrown(CannotEndWithEscape)
                        else if text[next] == 'n' || text[next] in roles.quote + roles.delimiter + roles.escape
                        then Found
                        else Thrown(UnknownEscapeSequence)
    requires tok == if !escaped.Found? then acc else acc + if text[next] == 'n' then "\n" else [text[next]]
    ensures var f := FieldFrom(roles, text, start, inQuote, acc);
            if escaped.Thrown? then f == Failed(escaped.error, tok, text[next..])
            else f == FieldFrom(roles, text, next + 1, inQuote, tok)
  {
    Unread(text, start);
    assert acc + "" == acc;
    if escaped.Found? {
      ExtendTwice(acc, if text[next] == 'n' then "\n" else [text[next]], ReadField(roles, text[next + 1..], inQuote));
    }
  }

  // ----- char_separator -----

  class CharSeparatorFunction {
    const delims: Delimiters
    const policy: EmptyTokenPolicy
    var outputDone: bool

    function M(): Machine
      reads this
    {
      CharSeparator(delims, policy, outputDone)
    }

    constructor (delims: Delimiters, policy: EmptyTokenPolicy, outputDone: bool)
      ensures M() == CharSeparator(delims, policy, outputDone)
    {
      this.delims, this.policy, this.outputDone := delims, policy, outputDone;
    }

    /** The constructors of the source: listed delimiters, or the character classes. */
    constructor FromStrings(dropped: string, kept: string, policy: EmptyTokenPolicy, punct: char -> bool,
        space: char -> bool)
      ensures M() == CharSeparator(Delimiters(kept, dropped, false, false, punct, space), policy, false)
    {
      delims, this.policy, outputDone := Delimiters(kept, dropped, false, false, punct, space), policy, false;
    }

    constructor Default(punct: char -> bool, space: char -> bool)
      ensures M() == CharSeparator(Delimiters("", "", true, true, punct, space), DropEmptyTokens, false)
    {
      delims, policy, outputDone := Delimiters("", "", true, true, punct, space), DropEmptyTokens, false;
    }

    method Reset()
      ensures M() == Restarted(M())
    {
    }

    /** The call, for either way of building tokens: appending characters, as for input iterators, or assigning the
        whole range at the end. The ways agree except in what the token variable holds at the end. */
    method Call(text: string, begin: nat, stale: string, appending: bool)
      returns (next: nat, tok: string, result: Result)
      requires begin <= |text|
      modifies this
      ensures Took(Next(old(M()), text[begin..], if appending then "" else stale), old(M()), M(), text, next, tok,
                result)
    {
      tok := stale;
      if appending { tok := ""; }
      if policy == DropEmptyTokens {
        next, tok, result := CallDropping(text, begin, tok, appending);
      } else {
        next, tok, result := CallKeeping(text, begin, tok, appending);
      }
    }

    /** The parts of the call for the policy that drops empty tokens. */
    method CallDropping(text: string, begin: nat, cleared: string, appending: bool)
      returns (next: nat, tok: string, result: Result)
      requires begin <= |text| && (appending ==> cleared == "")
      ensures Took(DropStep(M(), text[begin..], cleared), M(), M(), text, next, tok, result)
    {
      hide DropStep, SkipFrom, RunFrom, Delimiters.Kept, Delimiters.Dropped;
      next, tok := begin, cleared;
      DropStepAt(M(), text, begin, cleared);
      while next != |text| && delims.Dropped(text[next])
        invariant begin <= next <= |text| && SkipFrom(delims, text, next) == SkipFrom(delims, text, begin)
        decreases |text| - next
      {
        SkipStep(delims, text, next);
        next := next + 1;
      }
      SkipStep(delims, text, next);
      var start := next;
      if next == |text| { return next, tok, Exhausted; }
      if delims.Kept(text[next]) {
        if appending { tok := tok + [text[next]]; }
        next := next + 1;
      } else {
        next, tok := Run(text, start, tok, appending);
      }
      if !appending { tok := text[start..next]; }
      result := Found;
    }

    /** The parts of the call for the policy that keeps them. */
    method CallKeeping(text: string, begin: nat, cleared: string, appending: bool)
      returns (next: nat, tok: string, result: Result)
      requires begin <= |text| && (appending ==> cleared == "")
      modifies this
      ensures Took(KeepStep(old(M()), text[begin..], cleared), old(M()), M(), text, next, tok, result)
    {
      hide KeepStep, RunFrom, Delimiters.Kept, Delimiters.Dropped;
      next, tok := begin, cleared;
      var start := next;
      KeepStepAt(M(), text, begin, cleared);
      if next == |text| {
        if !outputDone {
          outputDone := true;
          if !appending { tok := text[start..next]; }
          return next, tok, Found;
        } else {
          return next, tok, Exhausted;
        }
      }
      if delims.Kept(text[next]) {
        if !outputDone {
          outputDone := true;
        } else {
          if appending { tok := tok + [text[next]]; }
          next := next + 1;
          outputDone := false;
        }
      } else if !outputDone && delims.Dropped(text[next]) {
        outputDone := true;
      } else {
        if delims.Dropped(text[next]) {
          next := next + 1;
          start := next;
        }
        next, tok := Run(text, start, tok, appending);
        outputDone := true;
      }
      if !appending { tok := text[start..next]; }
      result := Found;
    }

    /** The inner loop: everything up to the next delimiter. */
    method Run(text: string, start: nat, tok0: string, appending: bool) returns (next: nat, tok: string)
      requires start <= |text|
      ensures next == RunFrom(delims, text, start)
      ensures tok == if appending then tok0 + text[start..next] else tok0
    {
      next, tok := start, tok0;
      while next != |text| && !delims.Dropped(text[next]) && !delims.Kept(text[next])
        invariant start <= next <= |text| && RunFrom(delims, text, start) == RunFrom(delims, text, next)
        invariant tok == if appending then tok0 + text[start..next] else tok0
        decreases |text| - next
      {
        Unread(text, next);
        if appending { tok := tok + [text[next]]; }
        next := next + 1;
        assert text[start..next] == text[start..next - 1] + [text[next - 1]];
      }
      if next < |text| { Unread(text, next); }
    }
  }

  /** Where the run of non-delimiters that starts here ends. */
  function RunFrom(d: Delimiters, text: string, start: nat): (end: nat)
    requires start <= |text|
    ensures start <= end <= |text|
  {
    start + RunLength(d, text[start..])
  }

  /** Where the dropped delimiters that start here end. */
  function SkipFrom(d: Delimiters, text: string, start: nat): (end: nat)
    requires start <= |text|
    ensures start <= end <= |text|
  {
    |text| - |SkipDropped(d, text[start..])|
  }

  lemma SkipStep(d: Delimiters, text: string, i: nat)
    requires i <= |text|
    ensures SkipFrom(d, text, i) == if i < |text| && d.Dropped(text[i]) then SkipFrom(d, text, i + 1) else i
  {
    if i < |text| { Unread(text, i); }
  }

  lemma {:induction false} SkippedSuffix(d: Delimiters, text: string)
    ensures SkipDropped(d, text) == text[|text| - |SkipDropped(d, text)|..]
    decreases |text|
  {
    if text != "" && d.Dropped(text[0]) { SkippedSuffix(d, text[1..]); }
  }

  lemma SkippedAt(d: Delimiters, text: string, begin: nat)
    requires begin <= |text|
    ensures SkipDropped(d, text[begin..]) == text[SkipFrom(d, text, begin)..]
  {
    var rest := text[begin..];
    SkippedSuffix(d, rest);
    assert rest[|rest| - |SkipDropped(d, rest)|..] == text[SkipFrom(d, text, begin)..];
  }

  /** The dropping step in terms of positions. */
  lemma DropStepAt(m: Machine, text: string, begin: nat, stale: string)
    requires m.CharSeparator? && begin <= |text|
    ensures var s, start := DropStep(m, text[begin..], stale), SkipFrom(m.delims, text, begin);
      if start == |text| then s == End(m, stale)
      else if m.delims.Kept(text[start]) then
        s == Token([text[start]], m, text[start + 1..]) && text[start..start + 1] == [text[start]]
      else
        var end := RunFrom(m.delims, text, start);
        s == Token(text[start..end], m, text[end..])
  {
    hide Delimiters.Kept, Delimiters.Dropped, SkipFrom, SkipDropped, RunLength;
    var start := SkipFrom(m.delims, text, begin);
    SkippedAt(m.delims, text, begin);
    if start < |text| {
      Unread(text, start);
      TakeDrop(text, start, start + 1);
      TakeDrop(text, start, RunFrom(m.delims, text, start));
    }
  }

  /** The keeping step in terms of positions. */
  lemma KeepStepAt(m: Machine, text: string, begin: nat, stale: string)
    requires m.CharSeparator? && begin <= |text|
    ensures var s, d, done := KeepStep(m, text[begin..], stale), m.delims, m.(outputDone := true);
      if begin == |text| then s == if m.outputDone then End(m, stale) else Token("", done, "")
      else if d.Kept(text[begin]) && m.outputDone then
        s == Token([text[begin]], m.(outputDone := false), text[begin + 1..]) && text[begin..begin + 1] == [text[begin]]
      else if d.Kept(text[begin]) || (!m.outputDone && d.Dropped(text[begin])) then
        s == Token("", done, text[begin..]) && text[begin..begin] == ""
      else
        var start := if d.Dropped(text[begin]) then begin + 1 else begin;
        var end := RunFrom(d, text, start);
        s == Token(text[start..end], done, text[end..])
  {
    hide Delimiters.Kept, Delimiters.Dropped, RunFrom;
    if begin < |text| {
      Unread(text, begin);
      TakeDrop(text, begin, begin + 1);
      if !m.delims.Kept(text[begin]) && (m.outputDone || !m.delims.Dropped(text[begin])) {
        KeepRunAt(m, text, begin, stale);
      }
    }
  }

  lemma KeepRunAt(m: Machine, text: string, begin: nat, stale: string)
    requires m.CharSeparator? && begin < |text|
    requires !m.delims.Kept(text[begin]) && (m.outputDone || !m.delims.Dropped(text[begin]))
    ensures var start := if m.delims.Dropped(text[begin]) then begin + 1 else begin;
            var end := RunFrom(m.delims, text, start);
            KeepStep(m, text[begin..], stale) == Token(text[start..end], m.(outputDone := true), text[end..])
  {
    hide Delimiters.Kept, Delimiters.Dropped;
    Unread(text, begin);
    var start := if m.delims.Dropped(text[begin]) then begin + 1 else begin;
    TakeDrop(text, start, RunFrom(m.delims, text, start));
  }

  lemma TakeDrop(text: string, start: nat, next: nat)
    requires start <= next <= |text|
    ensures text[start..][..next - start] == text[start..next] && text[start..][next - start..] == text[next..]
    ensures next == start + 1 ==> text[start..next] == [text[start]]
  {
  }

  // ----- The iterator -----

  /** The function object embedded in an iterator. */
  datatype Functor = Escapes(e: EscapedListSeparator) | Chars(c: CharSeparatorFunction) {
    function Object(): object {
      match this
      case Escapes(e) => e
      case Chars(c) => c
    }

    function M(): Machine
      reads Object()
    {
      match this
      case Escapes(e) => e.M()
      case Chars(c) => c.M()
    }
  }

  class TokenIterator {
    const text: string
    const appending: bool
    const f: Functor
    var begin: nat
    var valid: bool
    var tok: string

    ghost predicate Valid()
      reads this
    {
      begin <= |text|
    }

    /** An iterator before `initialize`; the function object is copied into it. */
    constructor (m: Machine, text: string, begin: nat, appending: bool)
      requires begin <= |text|
      ensures Valid() && fresh(f.Object()) && f.M() == m && !valid && tok == ""
      ensures this.text == text && this.begin == begin && this.appending == appending
    {
      this.text, this.appending, this.begin, valid, tok := text, appending, begin, false, "";
      match m {
        case EscapedList(roles, last) =>
          var e := new EscapedListSeparator(roles, last);
          f := Escapes(e);
        case CharSeparator(d, p, done) =>
          var c := new CharSeparatorFunction(d, p, done);
          f := Chars(c);
      }
    }

    method CallFunctor() returns (result: Result)
      requires Valid()
      modifies this, f.Object()
      ensures Valid() && valid == old(valid)
      ensures var stale := if f.Escapes? || appending then "" else old(tok);
              Took(Next(old(f.M()), text[old(begin)..], stale), old(f.M()), f.M(), text, begin, tok, result)
    {
      match f
      case Escapes(e) =>
        var n, t, r := e.Call(text, begin);
        begin, tok, result := n, t, r;
      case Chars(c) =>
        var n, t, r := c.Call(text, begin, tok, appending);
        begin, tok, result := n, t, r;
    }

    /** When the call throws, `valid_` is not assigned. */
    method Increment() returns (result: Result)
      requires Valid() && valid
      modifies this, f.Object()
      ensures Valid() && valid == !result.Exhausted?
      ensures var stale := if f.Escapes? || appending then "" else old(tok);
              Took(Next(old(f.M()), text[old(begin)..], stale), old(f.M()), f.M(), text, begin, tok, result)
    {
      result := CallFunctor();
      if !result.Thrown? { valid := result.Found?; }
    }

    method Initialize() returns (result: Result)
      requires Valid() && !valid && tok == ""
      modifies this, f.Object()
      ensures Valid() && valid == result.Found?
      ensures old(begin) == |text| ==>
        result == Exhausted && begin == |text| && tok == "" && f.M() == Restarted(old(f.M()))
      ensures old(begin) < |text| ==>
        var m := Restarted(old(f.M()));
        Took(Next(m, text[old(begin)..], ""), m, f.M(), text, begin, tok, result)
    {
      match f {
        case Escapes(e) => e.Reset();
        case Chars(c) => c.Reset();
      }
      if begin != |text| {
        result := CallFunctor();
        if !result.Thrown? { valid := result.Found?; }
      } else {
        valid := false;
        result := Exhausted;
      }
    }

    /** Positions decide between two valid iterators. */
    predicate Equal(a: TokenIterator)
      reads this, a
      ensures a.valid && valid && Equal(a) ==> a.begin == begin && |a.text| == |text|
      ensures !a.valid || !valid ==> (Equal(a) <==> a.valid == valid)
    {
      if a.valid && valid then a.begin == begin && |a.text| == |text| else a.valid == valid
    }
  }

  /** The constructor as its callers see it: the members, and then `initialize`. */
  method Start(m: Machine, text: string, begin: nat, appending: bool) returns (it: TokenIterator, result: Result)
    requires begin <= |text|
    ensures fresh(it) && fresh(it.f.Object()) && it.Valid() && it.text == text && it.appending == appending
    ensures it.valid == result.Found?
    ensures begin == |text| ==>
      result == Exhausted && it.begin == |text| && it.tok == "" && it.f.M() == Restarted(m)
    ensures begin < |text| ==>
      Took(Next(Restarted(m), text[begin..], ""), Restarted(m), it.f.M(), text, it.begin, it.tok, result)
  {
    it := new TokenIterator(m, text, begin, appending);
    result := it.Initialize();
  }

  /** The copy of an iterator, function object included. */
  method Copy(it: TokenIterator) returns (c: TokenIterator)
    requires it.Valid()
    ensures fresh(c) && fresh(c.f.Object()) && c.Valid() && c.text == it.text && c.appending == it.appending
    ensures c.begin == it.begin && c.valid == it.valid && c.tok == it.tok && c.f.M() == it.f.M()
  {
    c := new TokenIterator(it.f.M(), it.text, it.begin, it.appending);
    c.valid, c.tok := it.valid, it.tok;
  }

  /** An iterator and its predecessor, both valid, are equal exactly when the call took no text; their tokens are
      not compared. */
  method StepBeside(it: TokenIterator) returns (before: TokenIterator, result: Result)
    requires it.Valid() && it.valid
    modifies it, it.f.Object()
    ensures fresh(before) && before.valid && before.begin == old(it.begin) && before.tok == old(it.tok)
    ensures before.text == it.text && it.Valid() && it.valid == !result.Exhausted?
    ensures var stale := if it.f.Escapes? || it.appending then "" else old(it.tok);
            Took(Next(old(it.f.M()), it.text[old(it.begin)..], stale), old(it.f.M()), it.f.M(), it.text, it.begin,
              it.tok, result)
    ensures result.Found? ==> (it.Equal(before) <==> Lingers(old(it.f.M()), it.text[old(it.begin)..]))
  {
    hide Next, Lingers;
    before := Copy(it);
    ghost var m, b, stale := it.f.M(), it.begin, if it.f.Escapes? || it.appending then "" else it.tok;
    result := it.Increment();
    StaysPut(m, it.text[b..], stale);
    if result.Found? { SamePlace(it.text, b, it.begin); }
  }

  lemma SamePlace(text: string, i: nat, j: nat)
    requires i <= |text| && j <= |text|
    ensures text[i..] == text[j..] <==> i == j
  {
  }

  /** The two tokens of "a,": the iterators at "a" and at the blank field after it are equal. */
  method BlankFieldUnseen() returns (first: TokenIterator, second: TokenIterator)
    ensures first.valid && second.valid && first.tok == "a" && second.tok == "" && second.Equal(first)
  {
    var roles := Roles("\\", ",", "\"");
    var result: Result;
    second, result := Start(EscapedList(roles, false), "a,", 0, false);
    assert "a,"[0..] == "a," && "a,"[1..] == "," && ","[1..] == "";
    assert ReadField(roles, ",", false) == Read("", "", true);
    assert ReadField(roles, "a,", false) == Read("a", "", true);
    assert second.begin == 2 by { SamePlace("a,", second.begin, 2); }
    first, result := StepBeside(second);
  }

  /** A loop from `begin()` to `end()` of a tokenizer, collecting the tokens; and the function object at its end. */
  method Collect(m: Machine, text: string, appending: bool) returns (w: Walked, left: Machine)
    ensures w == Tokenize(Restarted(m), text) && left == Spent(Restarted(m), text)
  {
    hide Next, Tokenize, Spent, WalkFrom, Measure;
    var it, result := Start(m, text, 0, appending);
    var end, atEnd := Start(m, text, |text|, appending);
    var tokens: seq<string> := [];
    assert text[0..] == text;
    WalkStarts(Restarted(m), text);
    WalkOn(Restarted(m), text, "", []);
    if result.Thrown? { return Walked([], [result.error]), it.f.M(); }
    while !it.Equal(end)
      invariant it.Valid() && !end.valid && it.text == text && it.appending == appending
      invariant fresh(it) && fresh(it.f.Object()) && end != it && end != it.f.Object()
      invariant Tokenize(Restarted(m), text) ==
        if it.valid then WalkFrom(tokens + [it.tok], it.f.M(), text[it.begin..]) else Walked(tokens, [])
      invariant Spent(Restarted(m), text) == if it.valid then Left(it.f.M(), text[it.begin..]) else it.f.M()
      decreases it.valid, Measure(it.f.M(), text[it.begin..])
    {
      tokens := tokens + [it.tok];
      WalkOn(it.f.M(), text[it.begin..], if it.f.Escapes? || appending then "" else it.tok, tokens);
      result := it.Increment();
      if result.Thrown? { return Walked(tokens, [result.error]), it.f.M(); }
    }
    w, left := Walked(tokens, []), it.f.M();
  }

  /** A walk of which some tokens have been collected. */
  function WalkFrom(tokens: seq<string>, m: Machine, text: string): Walked {
    Walked(tokens + Walk(m, text).tokens, Walk(m, text).thrown)
  }

  lemma WalkStarts(m: Machine, text: string)
    ensures Tokenize(m, text) == if text == "" then Walked([], []) else WalkFrom([], m, text)
    ensures Spent(m, text) == if text == "" then m else Left(m, text)
  {
    assert [] + Walk(m, text).tokens == Walk(m, text).tokens;
  }

  /** One more call of the walk, whatever the token variable held. */
  lemma WalkOn(m: Machine, text: string, stale: string, tokens: seq<string>)
    ensures match Next(m, text, stale)
            case Token(t, m', rest) =>
              WalkFrom(tokens, m, text) == WalkFrom(tokens + [t], m', rest) && Left(m, text) == Left(m', rest)
            case End(m', _) => WalkFrom(tokens, m, text) == Walked(tokens, []) && Left(m, text) == m'
            case Throw(e, _, _) =>
              && WalkFrom(tokens, m, text) == Walked(tokens, [e])
              && (m.EscapedList? ==> Left(m, text) == m.(last := false))
  {
    StaleIsHarmless(m, text, stale);
    match Next(m, text, "") {
      case Token(t, m', rest) =>
        var ts := Walk(m', rest).tokens;
        assert tokens + ([t] + ts) == (tokens + [t]) + ts;
      case _ =>
        assert tokens + [] == tokens;
    }
  }
}
