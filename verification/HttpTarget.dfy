/** Request targets of the HTTP origin: percent-decoding once, confinement to the root.
    Text is its UTF-8 bytes; whether bytes are valid UTF-8 and how symbolic links resolve
    are left to the caller. */
module HttpTarget {
  import opened Wrappers
  import opened Bytes

  type Text = seq<byte>
  type Segments = seq<Text>

  const SLASH := 0x2F
  const DOT := 0x2E
  const PERCENT := 0x25
  const QUERY := 0x3F
  const HASH := 0x23

  // ----- decoding -----

  function HexValue(b: byte): Option<nat> {
    if 0x30 <= b <= 0x39 then Some(b - 0x30)
    else if 0x41 <= b <= 0x46 then Some(b - 0x41 + 10)
    else if 0x61 <= b <= 0x66 then Some(b - 0x61 + 10)
    else None
  }

  predicate Escape(t: Text) {
    |t| >= 3 && t[0] == PERCENT && HexValue(t[1]).Some? && HexValue(t[2]).Some?
  }

  /** One pass; a percent sign without two hex digits stays itself. */
  function Unquote(t: Text): Text {
    if t == [] then []
    else if Escape(t) then [HexByte(t[1], t[2])] + Unquote(t[3..])
    else [t[0]] + Unquote(t[1..])
  }

  function HexByte(hi: byte, lo: byte): byte
    requires HexValue(hi).Some? && HexValue(lo).Some?
  {
    HexValue(hi).value * 16 + HexValue(lo).value
  }

  function UpTo(t: Text, stop: byte): Text {
    if t == [] || t[0] == stop then [] else [t[0]] + UpTo(t[1..], stop)
  }

  function PathPart(target: Text): Text { UpTo(UpTo(target, QUERY), HASH) }

  // ----- segments -----

  /** `split("/")`: never empty. */
  function Split(t: Text): (r: Segments)
    ensures r != []
  {
    if t == [] then [[]]
    else if t[0] == SLASH then [[]] + Split(t[1..])
    else var rest := Split(t[1..]); [[t[0]] + rest[0]] + rest[1..]
  }

  function Drop(segments: Segments): Segments {
    if segments == [] then []
    else if segments[0] == [] || segments[0] == [DOT] then Drop(segments[1..])
    else [segments[0]] + Drop(segments[1..])
  }

  function SegmentsOf(decoded: Text): Segments { Drop(Split(decoded)) }

  /** Foreign parts: UTF-8 validity, and path resolution (`None` when it fails). */
  datatype World = World(utf8: Text -> bool, resolve: Segments -> Option<Segments>)

  predicate Inside(path: Segments, root: Segments) { root <= path }

  /** Everything after the decoding. */
  function ResolveDecoded(w: World, root: Segments, decoded: Text): (r: Option<Segments>)
    ensures r.Some? ==> Inside(r.value, root)
  {
    if !w.utf8(decoded) || 0 in decoded || [DOT, DOT] in SegmentsOf(decoded) then None
    else
      match w.resolve(root + SegmentsOf(decoded))
      case None => None
      case Some(path) => if path == root || root < path then Some(path) else None
  }

  /** `resolve_within_root`: whatever the links do, an answer lies in the root. */
  function ResolveWithinRoot(w: World, root: Segments, target: Text): (r: Option<Segments>)
    ensures r.Some? ==> Inside(r.value, root)
    ensures r.Some? ==>
              var decoded := Unquote(PathPart(target));
              0 !in decoded && w.utf8(decoded) && [DOT, DOT] !in Split(decoded)
  {
    NoDotDot(Split(Unquote(PathPart(target))));
    ResolveDecoded(w, root, Unquote(PathPart(target)))
  }

  /** Dropping empty and "." segments hides no "..". */
  lemma {:induction false} NoDotDot(segments: Segments)
    ensures [DOT, DOT] in segments <==> [DOT, DOT] in Drop(segments)
  {
    if segments != [] {
      NoDotDot(segments[1..]);
    }
  }

  /** Exactly when a target resolves and to what: its decoded path is valid UTF-8 without NUL
      and without a ".." segment, and the root joined with its other segments, empty and "."
      ones left out, resolves to the root or to something below it. */
  lemma ResolveIff(w: World, root: Segments, target: Text, path: Segments)
    ensures var decoded := Unquote(PathPart(target));
            ResolveWithinRoot(w, root, target) == Some(path)
            <==> && w.utf8(decoded) && 0 !in decoded && [0x2E, 0x2E] !in Split(decoded)
                 && w.resolve(root + SegmentsOf(decoded)) == Some(path) && root <= path
  {
    NoDotDot(Split(Unquote(PathPart(target))));
  }

  /** Segments are what lies between slashes: joined with slashes again they are the text,
      and none contains one. */
  lemma {:induction false} SplitMeans(t: Text)
    ensures Rejoined(Split(t)) == t
    ensures forall i :: 0 <= i < |Split(t)| ==> 0x2F !in Split(t)[i]
  {
    if t != [] {
      SplitMeans(t[1..]);
      var rest := Split(t[1..]);
      if t[0] == SLASH {
        assert ([[]] + rest)[1..] == rest;
      } else {
        assert ([[t[0]] + rest[0]] + rest[1..])[1..] == rest[1..];
      }
    }
  }

  function Rejoined(segments: Segments): Text {
    if segments == [] then []
    else if |segments| == 1 then segments[0]
    else segments[0] + [0x2F] + Rejoined(segments[1..])
  }

  /** Of the segments, exactly the empty and "." ones are left out; the others keep their
      order. */
  lemma {:induction false} DropMeans(a: Segments, x: Text, b: Segments)
    ensures Drop(a + [x] + b) == Drop(a) + (if x == [] || x == [0x2E] then [] else [x]) + Drop(b)
    ensures Drop([]) == []
  {
    if a == [] {
      assert (a + [x] + b)[1..] == b && a + [x] + b == [x] + b;
      assert [] + Drop(b) == Drop(b);
    } else {
      assert (a + [x] + b)[1..] == a[1..] + [x] + b;
      DropMeans(a[1..], x, b);
      var own: Segments := if x == [] || x == [DOT] then [] else [x];
      assert [a[0]] + (Drop(a[1..]) + own + Drop(b)) == [a[0]] + Drop(a[1..]) + own + Drop(b);
    }
  }

  /** A percent sign not followed by two hexadecimal digits stands for itself. */
  lemma StrayPercent(rest: Text)
    requires |rest| < 2 || !Hex(rest[0]) || !Hex(rest[1])
    ensures Unquote([0x25] + rest) == [0x25] + Unquote(rest)
  {
    assert ([0x25] + rest)[1..] == rest;
  }

  /** "0" to "9", "A" to "F", "a" to "f". */
  predicate Hex(b: byte) { 0x30 <= b <= 0x39 || 0x41 <= b <= 0x46 || 0x61 <= b <= 0x66 }

  /** The path of a target ends before its first question mark or number sign. */
  lemma {:induction false} PathPartMeans(target: Text)
    ensures PathPart(target) <= target
    ensures 0x3F !in PathPart(target) && 0x23 !in PathPart(target)
    ensures |PathPart(target)| < |target| ==> target[|PathPart(target)|] in {0x3F, 0x23}
  {
    UpToMeans(target, QUERY);
    UpToMeans(UpTo(target, QUERY), HASH);
  }

  lemma {:induction false} UpToMeans(t: Text, stop: byte)
    ensures UpTo(t, stop) <= t && stop !in UpTo(t, stop)
    ensures |UpTo(t, stop)| < |t| ==> t[|UpTo(t, stop)|] == stop
  {
    if t != [] && t[0] != stop {
      UpToMeans(t[1..], stop);
    }
  }

  // ----- spellings -----

  /** One byte of a path as a client may write it. */
  datatype Glyph = Plain(b: byte) | Percent(code: byte, upperHi: bool, upperLo: bool)

  predicate Legal(g: Glyph) { g.Plain? ==> g.b != PERCENT && g.b != QUERY && g.b != HASH }

  function HexDigit(n: nat, upper: bool): (d: byte)
    requires n < 16
    ensures HexValue(d) == Some(n) && d != QUERY && d != HASH
  {
    if n < 10 then 0x30 + n else if upper then 0x41 + (n - 10) else 0x61 + (n - 10)
  }

  function Write(g: Glyph): Text {
    match g
    case Plain(b) => [b]
    case Percent(b, hi, lo) => [PERCENT, HexDigit(b / 16, hi), HexDigit(b % 16, lo)]
  }

  function Meaning(g: Glyph): byte { match g case Plain(b) => b case Percent(b, _, _) => b }

  function Spell(gs: seq<Glyph>): Text { if gs == [] then [] else Write(gs[0]) + Spell(gs[1..]) }

  function Means(gs: seq<Glyph>): (t: Text)
    ensures |t| == |gs|
  {
    if gs == [] then [] else [Meaning(gs[0])] + Means(gs[1..])
  }

  predicate AllLegal(gs: seq<Glyph>) { forall i :: 0 <= i < |gs| ==> Legal(gs[i]) }

  lemma UnquoteGlyph(g: Glyph, rest: Text)
    requires Legal(g)
    ensures Unquote(Write(g) + rest) == [Meaning(g)] + Unquote(rest)
  {
    var t := Write(g) + rest;
    match g
    case Plain(_) => assert t[1..] == rest;
    case Percent(b, _, _) =>
      assert t[3..] == rest;
      assert b / 16 * 16 + b % 16 == b;
  }

  lemma {:induction false} UnquoteSpelling(gs: seq<Glyph>)
    requires AllLegal(gs)
    ensures Unquote(Spell(gs)) == Means(gs)
  {
    if gs != [] {
      assert AllLegal(gs[1..]);
      UnquoteGlyph(gs[0], Spell(gs[1..]));
      UnquoteSpelling(gs[1..]);
    }
  }

  predicate Free(t: Text) { forall i :: 0 <= i < |t| ==> t[i] != QUERY && t[i] != HASH }

  lemma {:induction false} SpellingFree(gs: seq<Glyph>)
    requires AllLegal(gs)
    ensures Free(Spell(gs))
  {
    if gs != [] {
      assert AllLegal(gs[1..]);
      SpellingFree(gs[1..]);
      assert Free(Write(gs[0]));
    }
  }

  lemma {:induction false} UpToPasses(t: Text, stop: byte, suffix: Text)
    requires forall i :: 0 <= i < |t| ==> t[i] != stop
    ensures UpTo(t + suffix, stop) == t + UpTo(suffix, stop)
  {
    if t == [] {
      assert t + suffix == suffix;
    } else {
      assert (t + suffix)[1..] == t[1..] + suffix;
      UpToPasses(t[1..], stop, suffix);
    }
  }

  /** Nothing, a query, a fragment, or both. */
  predicate Extra(suffix: Text) { suffix == [] || suffix[0] == QUERY || suffix[0] == HASH }

  /** A query string or a fragment may follow; it changes nothing. */
  lemma PathPartOfFree(t: Text, suffix: Text)
    requires Free(t) && Extra(suffix)
    ensures PathPart(t + suffix) == t
  {
    UpToPasses(t, QUERY, suffix);
    UpToPasses(t, HASH, UpTo(suffix, QUERY));
    assert t + [] == t;
  }

  /** The answer depends on what the target means once decoded, not on its spelling: every
      way of writing the same bytes, with or without query and fragment, resolves alike. */
  lemma SpellingIrrelevant(w: World, root: Segments, gs: seq<Glyph>, suffix: Text)
    requires AllLegal(gs) && Extra(suffix)
    ensures ResolveWithinRoot(w, root, Spell(gs) + suffix) == ResolveDecoded(w, root, Means(gs))
  {
    SpellingFree(gs);
    PathPartOfFree(Spell(gs), suffix);
    UnquoteSpelling(gs);
  }

  /** A parent-directory segment is refused in every spelling. */
  lemma DotDotRefused(w: World, root: Segments, gs: seq<Glyph>, suffix: Text)
    requires AllLegal(gs) && Extra(suffix)
    requires [DOT, DOT] in SegmentsOf(Means(gs))
    ensures ResolveWithinRoot(w, root, Spell(gs) + suffix) == None
  {
    SpellingIrrelevant(w, root, gs, suffix);
  }

  // ----- the self-test's path -----

  predicate Unreserved(b: byte) {
    0x30 <= b <= 0x39 || 0x41 <= b <= 0x5A || 0x61 <= b <= 0x7A || b == 0x5F || b == 0x2E || b == 0x2D || b == 0x7E
  }

  /** `quote`: unreserved bytes and slashes as they are, everything else in upper-case hex. */
  function QuoteGlyph(b: byte): Glyph {
    if Unreserved(b) || b == SLASH then Plain(b) else Percent(b, true, true)
  }

  function Glyphs(t: Text): seq<Glyph> { if t == [] then [] else [QuoteGlyph(t[0])] + Glyphs(t[1..]) }

  /** "/" before every part. */
  function Joined(parts: Segments): Text {
    if parts == [] then [] else [SLASH] + parts[0] + Joined(parts[1..])
  }

  /** A file name below the root. */
  predicate Name(part: Text) { part != [] && part != [DOT] && part != [DOT, DOT] && SLASH !in part }

  predicate Names(parts: Segments) { forall i :: 0 <= i < |parts| ==> Name(parts[i]) }

  lemma {:induction false} GlyphsMean(t: Text)
    ensures Means(Glyphs(t)) == t && AllLegal(Glyphs(t))
  {
    if t != [] {
      GlyphsMean(t[1..]);
    }
  }

  lemma {:induction false} SplitName(part: Text, rest: Text)
    requires SLASH !in part && (rest == [] || rest[0] == SLASH)
    ensures Split(part + rest) == [part] + Split(rest)[1..] && Split(rest)[0] == []
  {
    if part == [] {
      assert part + rest == rest;
      assert Split(rest) == [Split(rest)[0]] + Split(rest)[1..];
    } else {
      assert (part + rest)[1..] == part[1..] + rest;
      SplitName(part[1..], rest);
      var r := Split(part[1..] + rest);
      assert r[0] == part[1..] && r[1..] == Split(rest)[1..] && [part[0]] + part[1..] == part;
    }
  }

  lemma {:induction false} SplitJoined(parts: Segments)
    requires Names(parts)
    ensures Split(Joined(parts)) == [[]] + parts
  {
    if parts != [] {
      var rest := Joined(parts[1..]);
      assert Names(parts[1..]);
      SplitJoined(parts[1..]);
      assert Name(parts[0]);
      SplitName(parts[0], rest);
      assert ([SLASH] + parts[0] + rest)[1..] == parts[0] + rest;
      assert ([[]] + parts[1..])[1..] == parts[1..];
      assert [parts[0]] + parts[1..] == parts;
    }
  }

  lemma {:induction false} DropNames(parts: Segments)
    requires Names(parts)
    ensures Drop(parts) == parts && [DOT, DOT] !in parts
  {
    if parts != [] {
      assert Name(parts[0]) && Names(parts[1..]);
      DropNames(parts[1..]);
    }
  }

  lemma NamesResolve(parts: Segments)
    requires Names(parts)
    ensures SegmentsOf(Joined(parts)) == parts && [DOT, DOT] !in parts
  {
    SplitJoined(parts);
    DropNames(parts);
    var all: Segments := [[]] + parts;
    assert all[1..] == parts;
  }

  function QuotedPath(parts: Segments): Text {
    if parts == [] then [] else [SLASH] + Spell(Glyphs(parts[0])) + QuotedPath(parts[1..])
  }

  lemma {:induction false} SpellConcat(a: seq<Glyph>, b: seq<Glyph>)
    ensures Spell(a + b) == Spell(a) + Spell(b)
  {
    if a == [] {
      assert a + b == b;
    } else {
      assert (a + b)[1..] == a[1..] + b;
      SpellConcat(a[1..], b);
      Regroup(Write(a[0]), Spell(a[1..]), Spell(b));
    }
  }

  lemma {:induction false} MeansConcat(a: seq<Glyph>, b: seq<Glyph>)
    ensures Means(a + b) == Means(a) + Means(b)
  {
    if a == [] {
      assert a + b == b;
    } else {
      assert (a + b)[1..] == a[1..] + b;
      MeansConcat(a[1..], b);
      Regroup([Meaning(a[0])], Means(a[1..]), Means(b));
    }
  }

  lemma Regroup(a: Text, b: Text, c: Text)
    ensures a + (b + c) == a + b + c
  {
  }

  lemma {:induction false} QuotedPathSpells(parts: Segments) returns (gs: seq<Glyph>)
    ensures AllLegal(gs) && Spell(gs) == QuotedPath(parts) && Means(gs) == Joined(parts)
  {
    if parts == [] {
      gs := [];
    } else {
      var tail := QuotedPathSpells(parts[1..]);
      var head := [Plain(SLASH)];
      var name := Glyphs(parts[0]);
      GlyphsMean(parts[0]);
      SpellConcat(head, name);
      SpellConcat(head + name, tail);
      MeansConcat(head, name);
      MeansConcat(head + name, tail);
      assert Spell(head) == [SLASH] + Spell([]) && Means(head) == [SLASH] + Means([]);
      gs := head + name + tail;
    }
  }

  /** The self-test's quoted path for a probe file resolves to exactly that file's parts
      below the root, whatever bytes its names are made of. */
  lemma SelfTestPathResolves(w: World, root: Segments, parts: Segments)
    requires Names(parts) && w.utf8(Joined(parts)) && 0 !in Joined(parts)
    requires w.resolve(root + parts) == Some(root + parts)
    ensures ResolveWithinRoot(w, root, QuotedPath(parts)) == Some(root + parts)
  {
    var gs := QuotedPathSpells(parts);
    SpellingIrrelevant(w, root, gs, []);
    assert Spell(gs) + [] == Spell(gs);
    NamesResolve(parts);
    assert parts == [] ==> root + parts == root;
    assert parts != [] ==> root < root + parts;
  }
}
