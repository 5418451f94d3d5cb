/** Byte ranges of the HTTP origin: the Range header and the copy loop (sections 2.1 and
    4.4 of RFC 7233). */
module HttpRange {
  import opened Wrappers
  import opened Bytes
  import opened Text

  /** Python's `int` on text, whatever spellings it accepts. */
  type IntParser = string -> Option<int>

  datatype Range = Whole | Unsatisfiable | Slice(start: nat, end: nat)

  const PREFIX := "bytes="
  const COPY_BUFFER := 65536

  /** Where `c` first occurs, or the length. */
  function Index(s: string, c: char): (k: nat)
    ensures k <= |s| && (k < |s| ==> s[k] == c)
    ensures forall i :: 0 <= i < k ==> s[i] != c
  {
    if s == [] || s[0] == c then 0 else 1 + Index(s[1..], c)
  }

  function SuffixRange(suffix: int, size: nat): Range {
    if suffix <= 0 || size == 0 then Unsatisfiable
    else Slice(if size - suffix > 0 then size - suffix else 0, size - 1)
  }

  function BoundedRange(start: int, endText: string, size: nat, int_: IntParser): Range {
    if start < 0 || size == 0 || start >= size then Unsatisfiable
    else if endText == "" then Slice(start, size - 1)
    else
      match int_(endText)
      case None => Whole
      case Some(end) => if end < start then Whole else Slice(start, Min(end, size - 1))
  }

  /** The part after the unit: the text before and after the first dash. */
  function ParseSpec(spec: string, size: nat, int_: IntParser): (r: Range)
    ensures r.Slice? ==> r.start <= r.end < size
  {
    var dash := Index(spec, '-');
    if dash == |spec| then Whole
    else
      var startText, endText := spec[..dash], spec[dash + 1..];
      if startText == "" && endText == "" then Whole
      else if startText == "" then
        match int_(endText) case None => Whole case Some(n) => SuffixRange(n, size)
      else
        match int_(startText) case None => Whole case Some(start) => BoundedRange(start, endText, size, int_)
  }

  /** `parse_range_header`; `Whole` stands for ignoring the header. */
  function ParseRange(value: Option<string>, size: nat, int_: IntParser): (r: Range)
    ensures r.Slice? ==> r.start <= r.end < size
  {
    if value.None? || value.value == "" || ',' in value.value || !(PREFIX <= value.value) then Whole
    else ParseSpec(Strip(value.value[|PREFIX|..]), size, int_)
  }

  // ----- the copy loop -----

  /** What a response body must be. */
  function Body(file: seq<byte>, range: Range): seq<byte> {
    match range
    case Whole => file
    case Unsatisfiable => []
    case Slice(start, end) => Clip(file, start, if start <= end then end + 1 else start)
  }

  /** Copy `length` bytes from `start`; a file that has shrunk since it was measured only
      shortens the body. */
  method Copy(file: seq<byte>, start: nat, length: nat) returns (body: seq<byte>, bytesSent: nat)
    ensures body == Clip(file, start, start + length)
    ensures bytesSent == |body|
  {
    body, bytesSent := [], 0;
    var pos, remaining := start, length;
    while remaining > 0
      invariant pos == start + length - remaining && 0 <= remaining <= length
      invariant body == Clip(file, start, pos) && bytesSent == |body|
    {
      var chunk := Clip(file, pos, pos + Min(COPY_BUFFER, remaining));
      if chunk == [] {
        break;
      }
      assert Clip(file, start, pos) + chunk == Clip(file, start, pos + |chunk|);
      body := body + chunk;
      bytesSent := bytesSent + |chunk|;
      pos, remaining := pos + |chunk|, remaining - |chunk|;
    }
  }

  datatype Response = Response(status: nat, contentLength: nat, body: seq<byte>)

  function ResponseTo(file: seq<byte>, header: Option<string>, int_: IntParser): Response {
    var range := ParseRange(header, |file|, int_);
    var body := Body(file, range);
    Response(match range case Whole => 200 case Unsatisfiable => 416 case Slice(_, _) => 206, |body|, body)
  }

  /** A GET on an unchanging file: the announced length is the length sent, and the body is
      exactly the accepted slice. */
  method Get(file: seq<byte>, header: Option<string>, int_: IntParser) returns (r: Response)
    ensures r == ResponseTo(file, header, int_)
    ensures r.contentLength == |r.body|
    ensures Unusable(header) ==> r == Response(200, |file|, file)
  {
    if Unusable(header) {
      UnusableIsIgnored(file, header, int_);
    }
    var range := ParseRange(header, |file|, int_);
    if range.Unsatisfiable? {
      return Response(416, 0, []);
    }
    var start, end := 0, |file| - 1;
    if range.Slice? {
      start, end := range.start, range.end;
    }
    var length := end - start + 1;
    var body, n := Copy(file, start, length);
    r := Response(if range.Slice? then 206 else 200, length, body);
  }

  // ----- what every header gets -----

  /** No header, an empty one, several ranges, another unit, or no dash. */
  predicate Unusable(header: Option<string>) {
    || header.None? || header.value == "" || ',' in header.value
    || !("bytes=" <= header.value) || '-' !in header.value[6..]
  }

  /** Such a header is ignored: the whole file, with its length. */
  lemma UnusableIsIgnored(file: seq<byte>, header: Option<string>, int_: IntParser)
    requires Unusable(header)
    ensures ResponseTo(file, header, int_) == Response(200, |file|, file)
  {
    if header.Some? && "bytes=" <= header.value && '-' !in header.value[6..] {
      StripMembers(header.value[6..], '-');
      NoDash(Strip(header.value[6..]), |file|, int_);
    }
  }

  lemma NoDash(spec: string, size: nat, int_: IntParser)
    requires '-' !in spec
    ensures ParseSpec(spec, size, int_) == Whole
  {
  }

  /** `value` is a single range: the unit, and between optional blanks the text before the
      first dash and the text after it. */
  ghost predicate Reads(value: string, pre: string, start: string, tail: string, post: string) {
    && ',' !in value && value == "bytes=" + (pre + (start + "-" + tail) + post)
    && AllSpace(pre) && AllSpace(post) && '-' !in start && Trim(start + "-" + tail)
  }

  /** What it asks for, told by the numbers in it and the bytes of the file. */
  function Told(file: seq<byte>, start: string, tail: string, int_: IntParser): Response {
    var whole := Response(200, |file|, file);
    var refused := Response(416, 0, []);
    if start == "" && tail == "" then whole
    else if start == "" then
      match int_(tail)
      case None => whole
      case Some(n) => if n <= 0 || file == [] then refused else Part(file, if n < |file| then |file| - n else 0, |file|)
    else
      match int_(start)
      case None => whole
      case Some(a) =>
        if a < 0 || a >= |file| then refused
        else if tail == "" then Part(file, a, |file|)
        else
          match int_(tail)
          case None => whole
          case Some(b) => if b < a then whole else Part(file, a, Min(b + 1, |file|))
  }

  /** The bytes from `a` up to and not including `b`. */
  function Part(file: seq<byte>, a: nat, b: nat): Response
    requires a <= b <= |file|
  {
    Response(206, b - a, file[a..b])
  }

  /** A header with a single range gets exactly what its numbers ask for. */
  lemma RangeAnswered(
    file: seq<byte>, value: string, int_: IntParser, pre: string, start: string, tail: string, post: string)
    requires Reads(value, pre, start, tail, post)
    ensures ResponseTo(file, Some(value), int_) == Told(file, start, tail, int_)
  {
    var spec := start + "-" + tail;
    StripRemoves(pre, spec, post);
    assert value[|PREFIX|..] == pre + spec + post;
    FirstDash(start, tail);
    DashSplit(start, tail);
    SpecAnswered(file, start, tail, int_);
  }

  lemma {:induction false} FirstDash(start: string, tail: string)
    requires '-' !in start
    ensures Index(start + "-" + tail, '-') == |start|
  {
    var spec := start + "-" + tail;
    assert spec[|start|] == '-';
    assert forall i :: 0 <= i < |start| ==> spec[i] == start[i];
  }

  lemma SpecAnswered(file: seq<byte>, start: string, tail: string, int_: IntParser)
    requires var spec := start + "-" + tail;
             Index(spec, '-') == |start| && spec[..|start|] == start && spec[|start| + 1..] == tail
    ensures var range := ParseSpec(start + "-" + tail, |file|, int_);
            var body := Body(file, range);
            Told(file, start, tail, int_)
            == Response(match range case Whole => 200 case Unsatisfiable => 416 case Slice(_, _) => 206, |body|, body)
  {
  }

  /** Every header that is not unusable is a single range. */
  lemma UsableReads(value: string) returns (pre: string, start: string, tail: string, post: string)
    requires !Unusable(Some(value))
    ensures Reads(value, pre, start, tail, post)
  {
    var padded := value[6..];
    assert value == "bytes=" + padded;
    pre, post := StripLeaves(padded);
    StripMembers(padded, '-');
    start, tail := SplitAtDash(Strip(padded));
  }

  lemma SplitAtDash(spec: string) returns (start: string, tail: string)
    requires '-' in spec
    ensures spec == start + "-" + tail && '-' !in start
  {
    var dash := Index(spec, '-');
    start, tail := spec[..dash], spec[dash + 1..];
  }

  /** 416 is answered exactly to a single range that starts at a number below zero or at or
      past the end, or asks for the last n bytes with n not above zero or the file empty. */
  lemma RefusedIff(file: seq<byte>, header: Option<string>, int_: IntParser)
    ensures ResponseTo(file, header, int_).status == 416
            <==> header.Some? && exists pre, start, tail, post ::
                   && Reads(header.value, pre, start, tail, post)
                   && (if start == "" then tail != "" && int_(tail).Some? && (int_(tail).value <= 0 || file == [])
                       else int_(start).Some? && (int_(start).value < 0 || int_(start).value >= |file|))
  {
    if Unusable(header) {
      UnusableIsIgnored(file, header, int_);
    } else {
      var pre, start, tail, post := UsableReads(header.value);
      RangeAnswered(file, header.value, int_, pre, start, tail, post);
    }
    if header.Some? {
      forall pre, start, tail, post | Reads(header.value, pre, start, tail, post)
        ensures ResponseTo(file, header, int_) == Told(file, start, tail, int_)
      {
        RangeAnswered(file, header.value, int_, pre, start, tail, post);
      }
    }
  }

  // ----- consecutive ranges -----

  ghost predicate ReadsDecimals(int_: IntParser) {
    forall n: nat :: int_(Dec(n)) == Some(n)
  }

  function Spec(a: nat, b: Option<nat>): string {
    Dec(a) + "-" + (if b.None? then "" else Dec(b.value))
  }

  /** The header for bytes `a` to `b` inclusive, or from `a` on. */
  function Header(a: nat, b: Option<nat>): Option<string> { Some(PREFIX + Spec(a, b)) }

  predicate Tidy(s: string) { forall i :: 0 <= i < |s| ==> s[i] != ',' && !IsSpace(s[i]) }

  lemma SpecTidy(a: nat, b: Option<nat>)
    ensures Tidy(Spec(a, b)) && Index(Spec(a, b), '-') == |Dec(a)|
  {
    var d := Dec(a);
    var tail := if b.None? then "" else Dec(b.value);
    var s := Spec(a, b);
    assert s == d + "-" + tail;
    assert forall i :: 0 <= i < |d| ==> IsDigit(d[i]) && s[i] == d[i];
    assert s[|d|] == '-';
    assert forall i :: 0 <= i < |tail| ==> IsDigit(tail[i]);
    forall i | 0 <= i < |s|
      ensures s[i] != ',' && !IsSpace(s[i])
    {
      if i > |d| {
        assert s[i] == tail[i - |d| - 1];
      }
    }
  }

  lemma StripTidy(s: string)
    requires Tidy(s)
    ensures Strip(s) == s
  {
  }

  lemma PrefixTidy(s: string)
    requires Tidy(s)
    ensures ',' !in PREFIX + s && PREFIX <= PREFIX + s && (PREFIX + s)[|PREFIX|..] == s
  {
    assert Tidy(PREFIX);
  }

  /** What a plain `a-b` or `a-` asks for. A start past the end is unsatisfiable even when
      the range is also backwards: that test comes first. */
  function Meant(a: nat, b: Option<nat>, size: nat): Range {
    if a >= size then Unsatisfiable
    else if b.None? then Slice(a, size - 1)
    else if b.value < a then Whole
    else Slice(a, Min(b.value, size - 1))
  }

  /** Every plain decimal range gets exactly what it asks for. */
  lemma CanonicalRange(a: nat, b: Option<nat>, size: nat, int_: IntParser)
    requires ReadsDecimals(int_)
    ensures ParseRange(Header(a, b), size, int_) == Meant(a, b, size)
  {
    SpecTidy(a, b);
    UnitRemoved(Spec(a, b), size, int_);
    SpecParses(a, b, size, int_);
  }

  lemma UnitRemoved(s: string, size: nat, int_: IntParser)
    requires Tidy(s)
    ensures ParseRange(Some(PREFIX + s), size, int_) == ParseSpec(s, size, int_)
  {
    StripTidy(s);
    PrefixTidy(s);
  }

  lemma SpecParses(a: nat, b: Option<nat>, size: nat, int_: IntParser)
    requires ReadsDecimals(int_)
    ensures ParseSpec(Spec(a, b), size, int_) == Meant(a, b, size)
  {
    var d := Dec(a);
    var tail := if b.None? then "" else Dec(b.value);
    SpecTidy(a, b);
    DashSplit(d, tail);
    assert int_(d) == Some(a);
    assert b.Some? ==> int_(tail) == Some(b.value) && tail != "";
  }

  lemma DashSplit(d: string, tail: string)
    ensures (d + "-" + tail)[..|d|] == d && (d + "-" + tail)[|d| + 1..] == tail
  {
  }

  /** The header for the last `n` bytes. */
  function SuffixHeader(n: nat): Option<string> { Some(PREFIX + SuffixSpec(n)) }

  function SuffixSpec(n: nat): string { "-" + Dec(n) }

  function LastOf(n: nat, size: nat): Range {
    if n == 0 || size == 0 then Unsatisfiable else Slice(if n < size then size - n else 0, size - 1)
  }

  lemma SuffixTidy(n: nat)
    ensures var s := SuffixSpec(n); Tidy(s) && Index(s, '-') == 0 && s[..0] == "" && s[1..] == Dec(n)
  {
    var d, s := Dec(n), SuffixSpec(n);
    forall i | 0 <= i < |s|
      ensures s[i] != ',' && !IsSpace(s[i])
    {
      if i > 0 {
        assert s[i] == d[i - 1] && IsDigit(d[i - 1]);
      }
    }
  }

  /** Every plain suffix range `-n` gets the last `n` bytes, or all there are; 416 if that
      is none. */
  lemma CanonicalSuffix(n: nat, size: nat, int_: IntParser)
    requires ReadsDecimals(int_)
    ensures ParseRange(SuffixHeader(n), size, int_) == LastOf(n, size)
  {
    SuffixTidy(n);
    UnitRemoved(SuffixSpec(n), size, int_);
    assert int_(Dec(n)) == Some(n);
  }

  /** The suffix answer is the end of the file, and no more than asked for. */
  lemma SuffixIsEnd(file: seq<byte>, n: nat, int_: IntParser)
    requires ReadsDecimals(int_)
    ensures var body := Body(file, ParseRange(SuffixHeader(n), |file|, int_));
            |body| == Min(n, |file|) && body == file[|file| - |body|..]
  {
    CanonicalSuffix(n, |file|, int_);
    LastBytes(file, n);
  }

  lemma LastBytes(file: seq<byte>, n: nat)
    ensures var body := Body(file, LastOf(n, |file|));
            |body| == Min(n, |file|) && body == file[|file| - |body|..]
  {
  }

  /** Cut points in order, each inside the file. */
  predicate Cuts(cuts: seq<nat>, size: nat) {
    && cuts != [] && cuts[|cuts| - 1] < size
    && forall i :: 0 <= i < |cuts| - 1 ==> cuts[i] < cuts[i + 1]
  }

  /** The body answering one canonical request. */
  function Piece(file: seq<byte>, a: nat, b: Option<nat>, int_: IntParser): seq<byte> {
    Body(file, ParseRange(Header(a, b), |file|, int_))
  }

  lemma PieceIsSlice(file: seq<byte>, a: nat, b: Option<nat>, int_: IntParser)
    requires ReadsDecimals(int_) && a < |file| && (b.Some? ==> a <= b.value < |file|)
    ensures Piece(file, a, b, int_) == file[a..if b.None? then |file| else b.value + 1]
  {
    CanonicalRange(a, b, |file|, int_);
  }

  function Before(cut: nat): nat { if cut == 0 then 0 else cut - 1 }

  type Fetch = (nat, Option<nat>) -> seq<byte>

  /** The bodies of consecutive requests from each cut to the next, the last one open-ended. */
  function Bodies(fetch: Fetch, cuts: seq<nat>): seq<byte>
    decreases |cuts|
  {
    if cuts == [] then []
    else if |cuts| == 1 then fetch(cuts[0], None)
    else fetch(cuts[0], Some(Before(cuts[1]))) + Bodies(fetch, cuts[1..])
  }

  ghost predicate Fetches(fetch: Fetch, file: seq<byte>) {
    forall a: nat, b: Option<nat> :: a < |file| && (b.Some? ==> a <= b.value < |file|) ==>
      fetch(a, b) == file[a..if b.None? then |file| else b.value + 1]
  }

  lemma {:induction false} CutsBelow(cuts: seq<nat>, size: nat)
    requires Cuts(cuts, size)
    ensures cuts[0] < size
    decreases |cuts|
  {
    if |cuts| > 1 {
      assert cuts[0] < cuts[1];
      CutsTail(cuts, size);
      CutsBelow(cuts[1..], size);
    }
  }

  lemma CutsTail(cuts: seq<nat>, size: nat)
    requires Cuts(cuts, size) && |cuts| > 1
    ensures Cuts(cuts[1..], size)
  {
    forall i | 0 <= i < |cuts[1..]| - 1
      ensures cuts[1..][i] < cuts[1..][i + 1]
    {
      assert cuts[i + 1] < cuts[i + 2];
    }
  }

  lemma {:induction false} PiecesConcatenate(fetch: Fetch, file: seq<byte>, cuts: seq<nat>)
    requires Fetches(fetch, file) && Cuts(cuts, |file|)
    ensures cuts[0] < |file| && Bodies(fetch, cuts) == file[cuts[0]..]
    decreases |cuts|
  {
    CutsBelow(cuts, |file|);
    if |cuts| > 1 {
      var a, b := cuts[0], cuts[1];
      assert a < b;
      CutsTail(cuts, |file|);
      CutsBelow(cuts[1..], |file|);
      PiecesConcatenate(fetch, file, cuts[1..]);
      assert fetch(a, Some(Before(b))) == file[a..b];
      assert file[a..b] + file[b..] == file[a..];
    }
  }

  /** For any cut points, the answers of the origin put together are the rest of the file;
      from zero, the whole file: nothing repeated, nothing missing. */
  lemma RangesConcatenate(file: seq<byte>, cuts: seq<nat>, int_: IntParser)
    requires ReadsDecimals(int_) && Cuts(cuts, |file|)
    ensures cuts[0] < |file| && Bodies((a, b) => Piece(file, a, b, int_), cuts) == file[cuts[0]..]
  {
    var fetch := (a, b) => Piece(file, a, b, int_);
    forall a: nat, b: Option<nat> | a < |file| && (b.Some? ==> a <= b.value < |file|)
      ensures fetch(a, b) == file[a..if b.None? then |file| else b.value + 1]
    {
      PieceIsSlice(file, a, b, int_);
    }
    PiecesConcatenate(fetch, file, cuts);
  }
}
