/** The quote-aware bracket scanner behind the WEBVAR parser. */
module BracketScan {
  import opened Wrappers

  /** Outside a string, inside one, or just after a backslash inside one. */
  datatype Lex = Code | Quoted(q: char) | Escaped(q: char)

  datatype Lexer = Lexer(lex: Lex, depth: int)

  datatype ScanResult = End(pos: nat) | NotAnOpening | Unterminated

  predicate IsQuote(c: char) { c == '\'' || c == '"' }

  /** One character. */
  function Next(l: Lexer, c: char, open: char, close: char): Lexer {
    match l.lex
    case Code =>
      if IsQuote(c) then l.(lex := Quoted(c))
      else if c == open then l.(depth := l.depth + 1)
      else if c == close then l.(depth := l.depth - 1)
      else l
    case Quoted(q) => if c == '\\' then l.(lex := Escaped(q)) else if c == q then l.(lex := Code) else l
    case Escaped(q) => l.(lex := Quoted(q))
  }

  /** `c` is an unquoted closing bracket that brings the depth to zero. */
  predicate Closes(l: Lexer, c: char, open: char, close: char) {
    l.lex.Code? && !IsQuote(c) && c != open && c == close && l.depth == 1
  }

  function Read(l: Lexer, s: string, open: char, close: char): Lexer
    decreases |s|
  {
    if s == [] then l else Read(Next(l, s[0], open, close), s[1..], open, close)
  }

  function Shift(n: nat, r: Option<nat>): Option<nat> {
    match r case None => None case Some(k) => Some(n + k)
  }

  /** Length of `s` up to and including the first character that closes. */
  function FirstClose(l: Lexer, s: string, open: char, close: char): Option<nat>
    decreases |s|
  {
    if s == [] then None
    else if Closes(l, s[0], open, close) then Some(1)
    else Shift(1, FirstClose(Next(l, s[0], open, close), s[1..], open, close))
  }

  const OUTSIDE := Lexer(Code, 0)

  // ----- the scanner -----

  /** `_scan_matching_bracket`: just past the bracket matching the one at `openPos`. */
  method ScanMatchingBracket(text: string, openPos: nat, open: char, close: char) returns (r: ScanResult)
    requires openPos < |text|
    ensures r == if text[openPos] != open then NotAnOpening
                 else match FirstClose(OUTSIDE, text[openPos..], open, close)
                      case None => Unterminated
                      case Some(n) => End(openPos + n)
  {
    if text[openPos] != open {
      return NotAnOpening;
    }
    var depth, inString, i := 0, None, openPos;
    ghost var whole := FirstClose(OUTSIDE, text[openPos..], open, close);
    while i < |text|
      invariant openPos <= i
      invariant i <= |text| ==>
                  var l := Lexer(if inString.None? then Code else Quoted(inString.value), depth);
                  whole == Shift(i - openPos, FirstClose(l, text[i..], open, close))
      invariant i > |text| ==> whole == None
      decreases |text| - i
    {
      var ch := text[i];
      ghost var l := Lexer(if inString.None? then Code else Quoted(inString.value), depth);
      ScanOne(l, text, i, open, close, i - openPos);
      if inString.Some? {
        if ch == '\\' {
          if i + 1 < |text| {
            ScanOne(Next(l, ch, open, close), text, i + 1, open, close, i + 1 - openPos);
          }
          i := i + 2;
          continue;
        }
        if ch == inString.value {
          inString := None;
        }
      } else if ch == '\'' || ch == '"' {
        inString := Some(ch);
      } else if ch == open {
        depth := depth + 1;
      } else if ch == close {
        depth := depth - 1;
        if depth == 0 {
          return End(i + 1);
        }
      }
      i := i + 1;
    }
    r := Unterminated;
  }

  lemma ScanOne(l: Lexer, text: string, i: nat, open: char, close: char, n: nat)
    requires i < |text|
    ensures Shift(n, FirstClose(l, text[i..], open, close))
            == if Closes(l, text[i], open, close) then Some(n + 1)
               else Shift(n + 1, FirstClose(Next(l, text[i], open, close), text[i + 1..], open, close))
  {
    assert text[i..][1..] == text[i + 1..];
  }

  // ----- what the scanner finds -----

  /** The result is the first position whose character closes; none means none closes. */
  lemma {:induction false} FirstCloseIsFirst(l: Lexer, s: string, open: char, close: char, i: nat)
    requires i < |s|
    ensures match FirstClose(l, s, open, close)
            case None => !Closes(Read(l, s[..i], open, close), s[i], open, close)
            case Some(n) =>
              && 1 <= n <= |s|
              && (i < n - 1 ==> !Closes(Read(l, s[..i], open, close), s[i], open, close))
              && (i == n - 1 ==> Closes(Read(l, s[..i], open, close), s[i], open, close))
    decreases |s|
  {
    if i == 0 {
      assert s[..0] == [];
      if !Closes(l, s[0], open, close) && FirstClose(l, s, open, close).Some? && |s| > 1 {
        FirstCloseIsFirst(Next(l, s[0], open, close), s[1..], open, close, 0);
      }
    } else {
      assert s[..i][1..] == s[1..][..i - 1] && s[1..][i - 1] == s[i];
      if !Closes(l, s[0], open, close) {
        FirstCloseIsFirst(Next(l, s[0], open, close), s[1..], open, close, i - 1);
      }
    }
  }

  lemma {:induction false} FirstCloseConcat(l: Lexer, a: string, b: string, open: char, close: char)
    ensures FirstClose(l, a + b, open, close)
            == if FirstClose(l, a, open, close).Some? then FirstClose(l, a, open, close)
               else Shift(|a|, FirstClose(Read(l, a, open, close), b, open, close))
    ensures Read(l, a + b, open, close) == Read(Read(l, a, open, close), b, open, close)
    decreases |a|
  {
    if a == [] {
      assert a + b == b;
    } else {
      assert (a + b)[1..] == a[1..] + b;
      FirstCloseConcat(Next(l, a[0], open, close), a[1..], b, open, close);
    }
  }

  // ----- array literals -----

  /** Array text: quoted strings, nested arrays, and atoms, which stand for numbers, names,
      braces, commas, colons and blanks. */
  datatype Value = Atom(text: string) | Str(quote: char, content: string) | Arr(items: Values)
  datatype Values = Nil | Cons(head: Value, tail: Values)

  predicate Plain(s: string) {
    forall i :: 0 <= i < |s| ==> s[i] != '\'' && s[i] != '"' && s[i] != '[' && s[i] != ']'
  }

  predicate Good(v: Value) {
    match v
    case Atom(text) => Plain(text)
    case Str(q, _) => q == '\'' || q == '"'
    case Arr(items) => AllGood(items)
  }

  predicate AllGood(vs: Values) {
    match vs case Nil => true case Cons(v, rest) => Good(v) && AllGood(rest)
  }

  function Escape(q: char, s: string): string {
    if s == [] then []
    else (if s[0] == q || s[0] == '\\' then ['\\', s[0]] else [s[0]]) + Escape(q, s[1..])
  }

  function Render(v: Value): string {
    match v
    case Atom(text) => text
    case Str(q, content) => [q] + (Escape(q, content) + [q])
    case Arr(items) => "[" + (RenderAll(items) + "]")
  }

  function RenderAll(vs: Values): string {
    match vs case Nil => "" case Cons(v, rest) => Render(v) + RenderAll(rest)
  }

  /** Reading `s` closes nothing and leaves the lexer as it was. */
  predicate Neutral(l: Lexer, s: string) {
    FirstClose(l, s, '[', ']') == None && Read(l, s, '[', ']') == l
  }

  lemma {:induction false} PlainNeutral(l: Lexer, s: string)
    requires l.lex.Code? && Plain(s)
    ensures Neutral(l, s)
  {
    if s != [] {
      assert Plain(s[1..]);
      PlainNeutral(l, s[1..]);
    }
  }

  lemma NeutralConcat(l: Lexer, a: string, b: string)
    requires Neutral(l, a) && Neutral(l, b)
    ensures Neutral(l, a + b)
  {
    FirstCloseConcat(l, a, b, '[', ']');
  }

  /** Inside a string nothing closes, whatever its characters, and the string does not end. */
  lemma {:induction false} EscapedNeutral(q: char, depth: int, s: string)
    requires IsQuote(q)
    ensures Neutral(Lexer(Quoted(q), depth), Escape(q, s))
  {
    var l := Lexer(Quoted(q), depth);
    if s != [] {
      EscapedNeutral(q, depth, s[1..]);
      var first := if s[0] == q || s[0] == '\\' then ['\\', s[0]] else [s[0]];
      OneEscaped(q, depth, s[0]);
      NeutralConcat(l, first, Escape(q, s[1..]));
    }
  }

  lemma OneEscaped(q: char, depth: int, c: char)
    requires IsQuote(q)
    ensures Neutral(Lexer(Quoted(q), depth), if c == q || c == '\\' then ['\\', c] else [c])
  {
    var l := Lexer(Quoted(q), depth);
    if c == q || c == '\\' {
      var e := Lexer(Escaped(q), depth);
      assert ['\\', c][1..] == [c] && [c][1..] == [];
      assert Next(l, '\\', '[', ']') == e && Next(e, c, '[', ']') == l;
      assert Read(e, [c], '[', ']') == l && FirstClose(e, [c], '[', ']') == None;
    }
  }

  lemma StringNeutral(q: char, depth: int, content: string)
    requires IsQuote(q)
    ensures Neutral(Lexer(Code, depth), [q] + (Escape(q, content) + [q]))
  {
    var out, within := Lexer(Code, depth), Lexer(Quoted(q), depth);
    EscapedNeutral(q, depth, content);
    FirstCloseConcat(within, Escape(q, content), [q], '[', ']');
    FirstCloseConcat(out, [q], Escape(q, content) + [q], '[', ']');
    assert Read(out, [q], '[', ']') == within;
    assert Read(within, [q], '[', ']') == out;
  }

  lemma ArrayNeutral(depth: int, body: string)
    requires depth >= 1 && Neutral(Lexer(Code, depth + 1), body)
    ensures Neutral(Lexer(Code, depth), "[" + (body + "]"))
  {
    var out, within := Lexer(Code, depth), Lexer(Code, depth + 1);
    FirstCloseConcat(within, body, "]", '[', ']');
    FirstCloseConcat(out, "[", body + "]", '[', ']');
    assert Read(out, "[", '[', ']') == within;
    assert Read(within, "]", '[', ']') == out;
  }

  lemma {:induction false} RenderNeutral(v: Value, depth: int)
    requires Good(v) && depth >= 1
    ensures Neutral(Lexer(Code, depth), Render(v))
    decreases v
  {
    match v
    case Atom(text) => PlainNeutral(Lexer(Code, depth), text);
    case Str(q, content) => StringNeutral(q, depth, content);
    case Arr(items) =>
      RenderAllNeutral(items, depth + 1);
      ArrayNeutral(depth, RenderAll(items));
  }

  lemma {:induction false} RenderAllNeutral(vs: Values, depth: int)
    requires AllGood(vs) && depth >= 1
    ensures Neutral(Lexer(Code, depth), RenderAll(vs))
    decreases vs
  {
    match vs
    case Nil =>
    case Cons(v, rest) =>
      RenderNeutral(v, depth);
      RenderAllNeutral(rest, depth);
      NeutralConcat(Lexer(Code, depth), Render(v), RenderAll(rest));
  }

  /** For every array, wherever it stands in a text and whatever follows it, the scanner
      ends exactly where its rendering ends: brackets and quotes inside strings, escaped or
      not, never matter. */
  lemma ArrayIsFoundWhole(before: string, items: Values, suffix: string)
    requires AllGood(items)
    ensures var literal := Render(Arr(items));
            FirstClose(OUTSIDE, (before + literal + suffix)[|before|..], '[', ']') == Some(|literal|)
  {
    var body := RenderAll(items);
    var literal := "[" + (body + "]");
    var within := Lexer(Code, 1);
    assert (before + literal + suffix)[|before|..] == "[" + (body + ("]" + suffix));
    RenderAllNeutral(items, 1);
    FirstCloseConcat(OUTSIDE, "[", body + ("]" + suffix), '[', ']');
    assert Read(OUTSIDE, "[", '[', ']') == within;
    FirstCloseConcat(within, body, "]" + suffix, '[', ']');
    assert FirstClose(within, "]" + suffix, '[', ']') == Some(1);
  }
}
