/** The append-only READ trace: one JSON line per request, flushed as it is served, and
    the two-ended summary rebuilt from whatever a crash left of it. */
module TraceLog {
  import opened Wrappers
  import opened Text

  /** A served READ(10) or READ(12). */
  datatype Entry = Entry(is12: bool, lba: nat, blocks: nat)

  // ----- one line -----

  const OPEN := "{\"opcode\": \""
  const LBA := "\", \"lba\": "
  const BLOCKS := ", \"blocks\": "

  function OpText(is12: bool): string { if is12 then "0xa8" else "0x28" }

  function Render(e: Entry): string {
    OPEN + (OpText(e.is12) + (LBA + (Dec(e.lba) + (BLOCKS + (Dec(e.blocks) + "}")))))
  }

  ghost predicate SameEnd(rest: string, s: string) {
    rest != [] ==> s != [] && s[|s| - 1] == rest[|rest| - 1]
  }

  /** Consume a literal. */
  function Expect(s: string, lit: string): (r: Option<string>)
    ensures r.Some? ==> SameEnd(r.value, s)
  {
    if lit <= s then Some(s[|lit|..]) else None
  }

  /** Consume a number. */
  function ReadNat(s: string): (r: Option<(nat, string)>)
    ensures r.Some? ==> SameEnd(r.value.1, s)
  {
    var n := DigitRun(s);
    if n == 0 then None else Some((ValueOf(s[..n]), s[n..]))
  }

  function ReadOp(s: string): (r: Option<(bool, string)>)
    ensures r.Some? ==> SameEnd(r.value.1, s)
  {
    match Expect(s, OpText(false))
    case Some(rest) => Some((false, rest))
    case None =>
      match Expect(s, OpText(true))
      case Some(rest) => Some((true, rest))
      case None => None
  }

  /** JSON decoding of a trace line; anything that is not a whole entry is refused. */
  function Decode(s: string): (r: Option<Entry>)
    ensures r.Some? ==> s != [] && s[|s| - 1] == '}'
  {
    match Expect(s, OPEN) case None => None case Some(s1) =>
    match ReadOp(s1) case None => None case Some(op) =>
    match Expect(op.1, LBA) case None => None case Some(s3) =>
    match ReadNat(s3) case None => None case Some(lba) =>
    match Expect(lba.1, BLOCKS) case None => None case Some(s5) =>
    match ReadNat(s5) case None => None case Some(blocks) =>
    if blocks.1 == "}" then Some(Entry(op.0, lba.0, blocks.0)) else None
  }

  lemma ExpectPart(lit: string, rest: string)
    ensures Expect(lit + rest, lit) == Some(rest)
  {
  }

  lemma ReadOpPart(is12: bool, rest: string)
    ensures ReadOp(OpText(is12) + rest) == Some((is12, rest))
  {
    ExpectPart(OpText(is12), rest);
    assert (OpText(is12) + rest)[2] == OpText(is12)[2];
  }

  lemma ReadNatPart(n: nat, rest: string)
    requires rest != [] && !IsDigit(rest[0])
    ensures ReadNat(Dec(n) + rest) == Some((n, rest))
  {
    DigitRunConcat(Dec(n), rest);
    assert (Dec(n) + rest)[..|Dec(n)|] == Dec(n) && (Dec(n) + rest)[|Dec(n)|..] == rest;
    ValueOfDec(n);
  }

  lemma {:induction false} DigitRunConcat(d: string, rest: string)
    requires AllDigits(d) && rest != [] && !IsDigit(rest[0])
    ensures DigitRun(d + rest) == |d|
  {
    if d == [] {
      assert d + rest == rest;
    } else {
      assert (d + rest)[1..] == d[1..] + rest;
      DigitRunConcat(d[1..], rest);
    }
  }

  lemma DecodeOfRender(e: Entry)
    ensures Decode(Render(e)) == Some(e)
  {
    var s6 := Dec(e.blocks) + "}";
    var s5 := BLOCKS + s6;
    var s4 := Dec(e.lba) + s5;
    var s3 := LBA + s4;
    var s2 := OpText(e.is12) + s3;
    ReadNatPart(e.blocks, "}");
    ExpectPart(BLOCKS, s6);
    ReadNatPart(e.lba, s5);
    ExpectPart(LBA, s4);
    ReadOpPart(e.is12, s3);
    ExpectPart(OPEN, s2);
  }

  /** A closing brace appears only at the end of a rendered entry, and no newline at all. */
  lemma RenderShape(e: Entry)
    ensures Closed(Render(e)) && Render(e)[0] == '{'
  {
    var s6 := Dec(e.blocks) + "}";
    var s5 := BLOCKS + s6;
    var s4 := Dec(e.lba) + s5;
    var s3 := LBA + s4;
    var s2 := OpText(e.is12) + s3;
    PlainParts(e);
    Prepend(Dec(e.blocks), "}");
    Prepend(BLOCKS, s6);
    Prepend(Dec(e.lba), s5);
    Prepend(LBA, s4);
    Prepend(OpText(e.is12), s3);
    Prepend(OPEN, s2);
  }

  /** One closing brace, last, and no newline. */
  predicate Closed(s: string) {
    && s != [] && s[|s| - 1] == '}'
    && (forall i :: 0 <= i < |s| - 1 ==> s[i] != '}')
    && (forall i :: 0 <= i < |s| ==> !IsBreak(s[i]))
  }

  lemma Prepend(a: string, b: string)
    requires Closed(b) && Plain(a)
    ensures Closed(a + b)
  {
  }

  predicate Plain(a: string) { forall i :: 0 <= i < |a| ==> a[i] != '}' && !IsBreak(a[i]) }

  lemma PlainParts(e: Entry)
    ensures Plain(OPEN) && Plain(LBA) && Plain(BLOCKS) && Plain(OpText(e.is12))
    ensures Plain(Dec(e.lba)) && Plain(Dec(e.blocks))
  {
    DecPlain(e.lba);
    DecPlain(e.blocks);
  }

  lemma DecPlain(n: nat)
    ensures Plain(Dec(n))
  {
    forall i | 0 <= i < |Dec(n)|
      ensures Dec(n)[i] != '}' && !IsBreak(Dec(n)[i])
    {
      assert IsDigit(Dec(n)[i]);
    }
  }

  // ----- lines -----

  predicate IsBreak(c: char) { c == '\n' || c == '\r' }

  function LineEnd(text: string): (k: nat)
    ensures k <= |text|
    ensures forall i :: 0 <= i < k ==> !IsBreak(text[i])
    ensures k < |text| ==> IsBreak(text[k])
  {
    if text == [] || IsBreak(text[0]) then 0 else 1 + LineEnd(text[1..])
  }

  /** A carriage return and the newline after it are one break. */
  function NextLine(text: string, end: nat): (k: nat)
    requires end < |text|
    ensures end < k <= |text|
  {
    if text[end] == '\r' && end + 1 < |text| && text[end + 1] == '\n' then end + 2 else end + 1
  }

  /** The lines a text-file reader yields; a last line without newline counts. */
  function Lines(text: string): seq<string> {
    var end := LineEnd(text);
    if text == [] then []
    else if end == |text| then [text]
    else [text[..end]] + Lines(text[NextLine(text, end)..])
  }

  /** A line ends at a newline, at a carriage return, or at the two together. */
  lemma LineBreaks(line: string, rest: string)
    requires forall i :: 0 <= i < |line| ==> line[i] != '\n' && line[i] != '\r'
    ensures Lines(line + "\n" + rest) == [line] + Lines(rest)
    ensures Lines(line + "\r\n" + rest) == [line] + Lines(rest)
    ensures rest == "" || rest[0] != '\n' ==> Lines(line + "\r" + rest) == [line] + Lines(rest)
    ensures line != "" ==> Lines(line) == [line]
  {
    BreakAt(line, "\n", rest);
    BreakAt(line, "\r\n", rest);
    if rest == "" || rest[0] != '\n' {
      BreakAt(line, "\r", rest);
    }
  }

  lemma BreakAt(line: string, brk: string, rest: string)
    requires forall i :: 0 <= i < |line| ==> !IsBreak(line[i])
    requires brk == "\n" || brk == "\r\n" || (brk == "\r" && (rest == "" || rest[0] != '\n'))
    ensures Lines(line + brk + rest) == [line] + Lines(rest)
  {
    BreakParts(line, brk, rest);
    LinesStep(line + brk + rest, |line|, |line| + |brk|);
  }

  lemma LinesStep(text: string, k: nat, next: nat)
    requires k < |text| && IsBreak(text[k]) && next == NextLine(text, k)
    requires forall i :: 0 <= i < k ==> !IsBreak(text[i])
    ensures Lines(text) == [text[..k]] + Lines(text[next..])
  {
    assert LineEnd(text) == k;
  }

  lemma BreakParts(line: string, brk: string, rest: string)
    requires brk == "\n" || brk == "\r\n" || (brk == "\r" && (rest == "" || rest[0] != '\n'))
    ensures var text := line + brk + rest;
            && text[..|line|] == line && text[|line| + |brk|..] == rest && IsBreak(text[|line|])
            && (forall i :: 0 <= i < |line| ==> text[i] == line[i])
            && NextLine(text, |line|) == |line| + |brk|
  {
    var text := line + brk + rest;
    assert text[|line|] == brk[0];
    assert brk == "\r\n" ==> text[|line| + 1] == '\n';
    assert |brk| == 1 && rest != "" ==> text[|line| + 1] == rest[0];
  }

  /** The line as the daemon writes it. */
  lemma RenderedLine(e: Entry)
    ensures Render(e) == "{\"opcode\": \"" + (if e.is12 then "0xa8" else "0x28")
                         + "\", \"lba\": " + Dec(e.lba) + ", \"blocks\": " + Dec(e.blocks) + "}"
  {
  }

  type Decoder = string -> Option<Entry>
  type Renderer = Entry -> string

  /** What the reader keeps of a log: the lines that decode, in order. */
  function Entries(decode: Decoder, lines: seq<string>): seq<Entry>
    decreases |lines|
  {
    if lines == [] then []
    else Kept(decode(lines[0])) + Entries(decode, lines[1..])
  }

  function Kept(entry: Option<Entry>): seq<Entry> { match entry case None => [] case Some(e) => [e] }

  function Log(render: Renderer, es: seq<Entry>): string
    decreases |es|
  {
    if es == [] then [] else render(es[0]) + "\n" + Log(render, es[1..])
  }

  /** The line decoding of `read_trace_summary`: strip, then JSON. */
  function DecodeLine(raw: string): Option<Entry> { Decode(Strip(raw)) }

  // ----- the summary -----

  datatype Summary = Summary(head: seq<Entry>, tail: seq<Entry>, dropped: nat)

  function First(s: seq<Entry>, n: nat): seq<Entry> { if |s| <= n then s else s[..n] }

  function Last(s: seq<Entry>, n: nat): seq<Entry> { if |s| <= n then s else s[|s| - n..] }

  /** Earliest entries, latest entries not already among them, and how many are missing
      in between: together they account for every entry, once and in order. */
  ghost predicate Summarises(s: Summary, es: seq<Entry>, headLimit: nat, tailLimit: nat) {
    && |s.head| <= headLimit && |s.tail| <= tailLimit
    && |s.head| + s.dropped + |s.tail| == |es|
    && es == s.head + es[|s.head|..|s.head| + s.dropped] + s.tail
    && (|s.head| < headLimit ==> s.tail == [] && s.dropped == 0)
    && (s.dropped > 0 ==> |s.tail| == tailLimit)
  }

  function HeadOf(seen: seq<Entry>, headLimit: nat): seq<Entry> { First(seen, headLimit) }

  function TailOf(seen: seq<Entry>, headLimit: nat, tailLimit: nat): seq<Entry> {
    if |seen| > headLimit then Last(seen[headLimit..], tailLimit) else []
  }

  lemma LastSnoc(s: seq<Entry>, e: Entry, n: nat)
    ensures var t := Last(s, n) + [e]; Last(s + [e], n) == if |t| > n then t[1..] else t
  {
  }

  lemma SplitSummarises(es: seq<Entry>, headLimit: nat, tailLimit: nat)
    ensures var dropped := if |es| > headLimit + tailLimit then |es| - headLimit - tailLimit else 0;
            Summarises(Summary(HeadOf(es, headLimit), TailOf(es, headLimit, tailLimit), dropped),
                       es, headLimit, tailLimit)
  {
    if |es| <= headLimit {
      ThreeParts(es, |es|, |es|);
    } else if |es| <= headLimit + tailLimit {
      ThreeParts(es, headLimit, headLimit);
    } else {
      ThreeParts(es, headLimit, |es| - tailLimit);
      DropTwice(es, headLimit, |es| - tailLimit);
    }
  }

  lemma ThreeParts(es: seq<Entry>, a: nat, b: nat)
    requires a <= b <= |es|
    ensures es == es[..a] + es[a..b] + es[b..]
    ensures a == |es| ==> es[..a] == es && es[b..] == []
  {
  }

  lemma DropTwice(es: seq<Entry>, a: nat, b: nat)
    requires a <= b <= |es|
    ensures es[a..][b - a..] == es[b..]
  {
  }

  /** One entry more: while the head has room it grows, afterwards the bounded tail slides. */
  method Absorb(ghost seen: seq<Entry>, head: seq<Entry>, tail: seq<Entry>, total: nat, e: Entry,
                headLimit: nat, tailLimit: nat) returns (head': seq<Entry>, tail': seq<Entry>)
    requires total == |seen| + 1
    requires head == HeadOf(seen, headLimit) && tail == TailOf(seen, headLimit, tailLimit)
    ensures head' == HeadOf(seen + [e], headLimit) && tail' == TailOf(seen + [e], headLimit, tailLimit)
  {
    head', tail' := head, tail;
    if total <= headLimit {
      head' := head + [e];
    } else {
      assert (seen + [e])[headLimit..] == seen[headLimit..] + [e];
      LastSnoc(seen[headLimit..], e, tailLimit);
      tail' := tail + [e];
      if |tail'| > tailLimit {
        tail' := tail'[1..];
      }
    }
  }

  lemma {:induction false} EntriesConcat(decode: Decoder, a: seq<string>, b: seq<string>)
    ensures Entries(decode, a + b) == Entries(decode, a) + Entries(decode, b)
    decreases |a|
  {
    if a == [] {
      assert a + b == b && [] + Entries(decode, b) == Entries(decode, b);
    } else {
      assert (a + b)[1..] == a[1..] + b;
      EntriesConcat(decode, a[1..], b);
      ThreeJoin(Kept(decode(a[0])), Entries(decode, a[1..]), Entries(decode, b));
    }
  }

  lemma ThreeJoin(a: seq<Entry>, b: seq<Entry>, c: seq<Entry>)
    ensures a + (b + c) == a + b + c
  {
  }

  /** One line more. */
  lemma EntriesAt(decode: Decoder, lines: seq<string>, i: nat)
    requires i < |lines|
    ensures Entries(decode, lines[..i + 1]) == Entries(decode, lines[..i]) + Kept(decode(lines[i]))
  {
    EntriesConcat(decode, lines[..i], [lines[i]]);
    assert lines[..i + 1] == lines[..i] + [lines[i]] && [lines[i]][1..] == [];
    assert Kept(decode(lines[i])) + [] == Kept(decode(lines[i]));
  }

  /** The loop of `read_trace_summary`; a missing file is `None`. */
  method ReadTraceSummary(decode: Decoder, file: Option<string>, headLimit: nat, tailLimit: nat) returns (s: Summary)
    ensures file.None? ==> s == Summary([], [], 0)
    ensures file.Some? ==> Summarises(s, Entries(decode, Lines(file.value)), headLimit, tailLimit)
  {
    if file.None? {
      return Summary([], [], 0);
    }
    s := SummariseLines(decode, Lines(file.value), headLimit, tailLimit);
  }

  method SummariseLines(decode: Decoder, lines: seq<string>, headLimit: nat, tailLimit: nat) returns (s: Summary)
    ensures Summarises(s, Entries(decode, lines), headLimit, tailLimit)
  {
    var head: seq<Entry>, tail: seq<Entry>, total := [], [], 0;
    ghost var seen: seq<Entry> := [];
    var i := 0;
    while i < |lines|
      invariant i <= |lines| && total == |seen| && seen == Entries(decode, lines[..i])
      invariant head == HeadOf(seen, headLimit) && tail == TailOf(seen, headLimit, tailLimit)
    {
      EntriesAt(decode, lines, i);
      var entry := decode(lines[i]);
      if entry.Some? {
        total := total + 1;
        head, tail := Absorb(seen, head, tail, total, entry.value, headLimit, tailLimit);
        seen := seen + [entry.value];
      } else {
        assert seen + [] == seen;
      }
      i := i + 1;
    }
    assert lines[..|lines|] == lines;
    SplitSummarises(seen, headLimit, tailLimit);
    s := Summary(head, tail, if total > headLimit + tailLimit then total - headLimit - tailLimit else 0);
  }

  /** The summary is determined: two that satisfy the specification are equal. */
  lemma SummaryUnique(a: Summary, b: Summary, es: seq<Entry>, headLimit: nat, tailLimit: nat)
    requires Summarises(a, es, headLimit, tailLimit) && Summarises(b, es, headLimit, tailLimit)
    ensures a == b
  {
    assert a.head == es[..|a.head|] && b.head == es[..|b.head|];
    assert a.tail == es[|es| - |a.tail|..] && b.tail == es[|es| - |b.tail|..];
  }

  // ----- crash durability -----

  /** A line codec: entries decode to themselves, and a line cut short decodes to nothing. */
  ghost predicate LineOk(render: Renderer, decode: Decoder, e: Entry) {
    && render(e) != [] && OneLine(render(e))
    && decode(render(e)) == Some(e)
    && (forall cut :: 0 <= cut < |render(e)| ==> decode(render(e)[..cut]) == None)
  }

  ghost predicate Codec(render: Renderer, decode: Decoder) {
    forall e :: LineOk(render, decode, e)
  }

  predicate OneLine(s: string) { forall i :: 0 <= i < |s| ==> !IsBreak(s[i]) }

  /** Cutting a rendered entry short, anywhere, leaves nothing that decodes. */
  lemma TornLine(e: Entry, cut: nat)
    requires cut < |Render(e)|
    ensures DecodeLine(Render(e)[..cut]) == None
  {
    RenderShape(e);
    TornClosed(Render(e), cut);
  }

  lemma TornClosed(s: string, cut: nat)
    requires Closed(s) && s[0] == '{' && cut < |s|
    ensures Decode(Strip(s[..cut])) == None
  {
    var torn := s[..cut];
    if cut > 0 {
      var r := TrimRight(torn);
      assert torn[0] == '{' && Strip(torn) == r;
      assert r != [] ==> r[|r| - 1] == s[|r| - 1];
    }
  }

  lemma StripClosed(s: string)
    requires Closed(s) && s[0] == '{'
    ensures Strip(s) == s
  {
  }

  /** The trace's JSON lines are such a codec. */
  lemma JsonLinesAreCodec()
    ensures Codec(Render, DecodeLine)
  {
    forall e
      ensures LineOk(Render, DecodeLine, e)
    {
      RenderShape(e);
      StripClosed(Render(e));
      DecodeOfRender(e);
      forall cut | 0 <= cut < |Render(e)|
        ensures DecodeLine(Render(e)[..cut]) == None
      {
        TornLine(e, cut);
      }
    }
  }

  /** How many entries have their whole text among the first `cut` characters. */
  function Complete(render: Renderer, es: seq<Entry>, cut: nat): (n: nat)
    ensures n <= |es|
    decreases |es|
  {
    if es == [] || cut < |render(es[0])| then 0
    else if cut == |render(es[0])| then 1
    else 1 + Complete(render, es[1..], cut - |render(es[0])| - 1)
  }

  lemma CutInside(line: string, rest: string, cut: nat)
    requires cut <= |line| && OneLine(line)
    ensures Lines((line + "\n" + rest)[..cut]) == if cut == 0 then [] else [line[..cut]]
  {
    assert (line + "\n" + rest)[..cut] == line[..cut];
  }

  lemma CutAfter(line: string, rest: string, left: nat)
    requires left <= |rest| && OneLine(line)
    ensures Lines((line + "\n" + rest)[..|line| + 1 + left]) == [line] + Lines(rest[..left])
  {
    var text := line + "\n" + rest[..left];
    assert (line + "\n" + rest)[..|line| + 1 + left] == text;
    assert text[|line|] == '\n';
    assert forall i :: 0 <= i < |line| ==> text[i] == line[i];
    assert text[..|line|] == line && text[|line| + 1..] == rest[..left];
  }

  lemma EntriesCons(decode: Decoder, line: string, e: Entry, lines: seq<string>)
    requires decode(line) == Some(e)
    ensures Entries(decode, [line] + lines) == [e] + Entries(decode, lines)
  {
    assert ([line] + lines)[1..] == lines;
  }

  lemma TakeCons(es: seq<Entry>, n: nat)
    requires n < |es|
    ensures [es[0]] + es[1..][..n] == es[..1 + n]
  {
  }

  lemma CutEntry(render: Renderer, decode: Decoder, es: seq<Entry>, cut: nat)
    requires es != [] && LineOk(render, decode, es[0]) && cut <= |render(es[0])|
    ensures Entries(decode, if cut == 0 then [] else [render(es[0])[..cut]]) == es[..Complete(render, es, cut)]
  {
    var line := render(es[0]);
    if cut == |line| {
      assert line[..cut] == line;
      EntriesCons(decode, line, es[0], []);
    }
  }

  lemma CutWithin(render: Renderer, decode: Decoder, es: seq<Entry>, cut: nat)
    requires es != [] && LineOk(render, decode, es[0]) && cut <= |render(es[0])|
    ensures Entries(decode, Lines(Log(render, es)[..cut])) == es[..Complete(render, es, cut)]
  {
    CutInside(render(es[0]), Log(render, es[1..]), cut);
    CutEntry(render, decode, es, cut);
  }

  lemma CutText(decode: Decoder, line: string, e: Entry, rest: string, left: nat)
    requires OneLine(line) && decode(line) == Some(e) && left <= |rest|
    ensures Entries(decode, Lines((line + "\n" + rest)[..|line| + 1 + left]))
            == [e] + Entries(decode, Lines(rest[..left]))
  {
    CutAfter(line, rest, left);
    EntriesCons(decode, line, e, Lines(rest[..left]));
  }

  lemma CutBeyond(decode: Decoder, es: seq<Entry>, line: string, rest: string, left: nat, n: nat)
    requires n < |es| && OneLine(line) && decode(line) == Some(es[0]) && left <= |rest|
    requires Entries(decode, Lines(rest[..left])) == es[1..][..n]
    ensures Entries(decode, Lines((line + "\n" + rest)[..|line| + 1 + left])) == es[..1 + n]
  {
    CutText(decode, line, es[0], rest, left);
    TakeCons(es, n);
  }

  /** Whatever prefix of the log a crash leaves, reading it back yields exactly the
      entries whose text was completely written. */
  lemma {:induction false} CrashKeepsCompleteEntries(render: Renderer, decode: Decoder, es: seq<Entry>, cut: nat)
    requires Codec(render, decode) && cut <= |Log(render, es)|
    ensures Entries(decode, Lines(Log(render, es)[..cut])) == es[..Complete(render, es, cut)]
    decreases |es|
  {
    if es != [] {
      assert LineOk(render, decode, es[0]);
      var length := |render(es[0])|;
      if cut <= length {
        CutWithin(render, decode, es, cut);
      } else {
        var left := cut - length - 1;
        CrashKeepsCompleteEntries(render, decode, es[1..], left);
        CutBeyond(decode, es, render(es[0]), Log(render, es[1..]), left, Complete(render, es[1..], left));
      }
    }
  }

  lemma LogTake(render: Renderer, es: seq<Entry>, i: nat)
    requires 0 < i <= |es|
    ensures |Log(render, es[..i])| == |render(es[0])| + 1 + |Log(render, es[1..][..i - 1])|
  {
    assert es[..i][1..] == es[1..][..i - 1];
  }

  /** Entry `i` is recovered exactly when its last character made it out, and of the
      entries the writer had started at most one is lost. */
  lemma {:induction false} CrashLosesAtMostOne(render: Renderer, es: seq<Entry>, cut: nat, i: nat)
    requires i < |es|
    ensures i < Complete(render, es, cut) <==> |Log(render, es[..i])| + |render(es[i])| <= cut
    ensures |Log(render, es[..i])| < cut && Complete(render, es, cut) <= i ==> i == Complete(render, es, cut)
    decreases |es|
  {
    var length := |render(es[0])|;
    if i == 0 {
      assert es[..0] == [];
    } else {
      LogTake(render, es, i);
      if cut > length {
        CrashLosesAtMostOne(render, es[1..], cut - length - 1, i - 1);
      }
    }
  }

  /** End to end: the summary of a log cut anywhere describes exactly the entries whose
      text was completely written before the cut. */
  method SummariseAfterCrash(es: seq<Entry>, cut: nat, headLimit: nat, tailLimit: nat) returns (s: Summary)
    requires cut <= |Log(Render, es)|
    ensures Summarises(s, es[..Complete(Render, es, cut)], headLimit, tailLimit)
  {
    JsonLinesAreCodec();
    CrashKeepsCompleteEntries(Render, DecodeLine, es, cut);
    s := ReadTraceSummary(DecodeLine, Some(Log(Render, es)[..cut]), headLimit, tailLimit);
  }
}
