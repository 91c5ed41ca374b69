/** The request format the parser accepts, as a grammar: a message, how it is written, and where its parts
lie in the buffer. */
module HttpGrammar {
  import opened ByteStrings

  const SP: Byte := 32
  const TAB: Byte := 9
  const CR: Byte := 13
  const LF: Byte := 10
  const COLON: Byte := 58
  const NUL: Byte := 0

  // ---------- header values ----------

  predicate Blank(b: Byte) { b == SP || b == TAB }

  /** Where `[lo, hi)` starts once leading blanks are skipped. */
  function SkipBlanks(buf: Bytes, lo: nat, hi: nat): (r: nat)
    requires lo <= hi <= |buf|
    ensures lo <= r <= hi
    decreases hi - lo
  {
    if lo < hi && Blank(buf[lo]) then SkipBlanks(buf, lo + 1, hi) else lo
  }

  /** Where `[lo, hi)` ends once trailing blanks are dropped. */
  function DropBlanks(buf: Bytes, lo: nat, hi: nat): (r: nat)
    requires lo <= hi <= |buf|
    ensures lo <= r <= hi
    decreases hi - lo
  {
    if hi > lo && Blank(buf[hi - 1]) then DropBlanks(buf, lo, hi - 1) else hi
  }

  lemma {:induction false} SkippedAreBlank(buf: Bytes, lo: nat, hi: nat)
    requires lo <= hi <= |buf|
    ensures forall i :: lo <= i < SkipBlanks(buf, lo, hi) ==> Blank(buf[i])
    ensures SkipBlanks(buf, lo, hi) < hi ==> !Blank(buf[SkipBlanks(buf, lo, hi)])
    decreases hi - lo
  {
    if lo < hi && Blank(buf[lo]) {
      SkippedAreBlank(buf, lo + 1, hi);
    }
  }

  lemma {:induction false} DroppedAreBlank(buf: Bytes, lo: nat, hi: nat)
    requires lo <= hi <= |buf|
    ensures forall i :: DropBlanks(buf, lo, hi) <= i < hi ==> Blank(buf[i])
    ensures DropBlanks(buf, lo, hi) > lo ==> !Blank(buf[DropBlanks(buf, lo, hi) - 1])
    decreases hi - lo
  {
    if hi > lo && Blank(buf[hi - 1]) {
      DroppedAreBlank(buf, lo, hi - 1);
    }
  }

  /** One carriage return before the line feed belongs to the line end. */
  function DropCr(buf: Bytes, lo: nat, hi: nat): (r: nat)
    requires lo <= hi <= |buf|
    ensures lo <= r <= hi
  {
    if hi > lo && buf[hi - 1] == CR then hi - 1 else hi
  }

  datatype View = NoView | View(lo: nat, hi: nat)

  /** The value of a header whose line holds `[lo, hi)` after the colon. */
  function ValueView(buf: Bytes, lo: nat, hi: nat): (v: View)
    requires lo <= hi <= |buf|
    ensures v.View? && lo <= v.lo <= v.hi <= hi
  {
    var end := DropCr(buf, lo, hi);
    var start := SkipBlanks(buf, lo, end);
    View(start, DropBlanks(buf, start, end))
  }

  function Text(buf: Bytes, v: View): Bytes
    requires v.View? ==> v.lo <= v.hi <= |buf|
  {
    if v.NoView? then [] else buf[v.lo..v.hi]
  }

  function Value(raw: Bytes): Bytes { Text(raw, ValueView(raw, 0, |raw|)) }

  // ---------- comparison without case ----------

  function Lower(b: Byte): Byte { if 65 <= b <= 90 then b + 32 else b }

  ghost predicate EqualIgnoringCase(a: Bytes, b: Bytes) {
    |a| == |b| && forall i :: 0 <= i < |a| ==> Lower(a[i]) == Lower(b[i])
  }

  ghost predicate OccursAt(hay: Bytes, i: nat, needle: Bytes) {
    i + |needle| <= |hay| && EqualIgnoringCase(hay[i..i + |needle|], needle)
  }

  ghost predicate ContainsIgnoringCase(hay: Bytes, needle: Bytes) {
    needle != [] && exists i: nat :: OccursAt(hay, i, needle)
  }

  // ---------- fields and messages ----------

  /** A header line: the key, and everything between the colon and the line feed. */
  datatype Field = Field(key: Bytes, raw: Bytes)

  /** What is acceptable beyond the form: how many headers, a key, a key after the key before it, and a value
      for its key. */
  datatype Rules = Rules(
    maxHeaders: nat, key: Bytes -> bool, pair: (Bytes, Bytes) -> bool, value: (Bytes, Bytes) -> bool)

  predicate KeyOk(r: Rules, key: Bytes) { NoKeyEnd(key) && r.key(key) }

  /** Nothing in the key ends it. */
  predicate NoKeyEnd(key: Bytes) { forall i :: 0 <= i < |key| ==> key[i] != CR && key[i] != LF && key[i] != COLON }

  /** One to 64 visible bytes. */
  predicate KeyVisible(key: Bytes) { 1 <= |key| <= 64 && forall i :: 0 <= i < |key| ==> 0x20 < key[i] < 0x7f }

  /** The one pair of neighbouring keys the parser refuses. */
  predicate PairOk(previous: Bytes, key: Bytes) { !(previous == Ascii("Host") && key == Ascii("injected")) }

  /** The value has no stray carriage return and does not announce a chunked body. */
  ghost predicate ValueOk(key: Bytes, value: Bytes) {
    && CR !in value
    && !(EqualIgnoringCase(key, Ascii("Transfer-Encoding")) && ContainsIgnoringCase(value, Ascii("chunked")))
  }

  /** The rules of this parser. */
  ghost function ParserRules(): Rules {
    Rules(16, (k: Bytes) => KeyVisible(k), (p: Bytes, k: Bytes) => PairOk(p, k), (k: Bytes, v: Bytes) => ValueOk(k, v))
  }

  predicate FieldOk(r: Rules, f: Field) { KeyOk(r, f.key) && LF !in f.raw && r.value(f.key, Value(f.raw)) }

  /** `blank` is the empty line after the headers: CR LF, LF or a lone CR. */
  datatype Message = Message(verb: Bytes, uri: Bytes, version: Bytes, fields: seq<Field>, blank: Bytes, rest: Bytes)

  predicate FieldsOk(r: Rules, fields: seq<Field>) {
    && |fields| <= r.maxHeaders
    && (forall i :: 0 <= i < |fields| ==> FieldOk(r, fields[i]))
    && (forall i :: 0 < i < |fields| ==> r.pair(fields[i - 1].key, fields[i].key))
  }

  predicate BlankOk(blank: Bytes, rest: Bytes) {
    blank == [CR, LF] || blank == [LF] || (blank == [CR] && (rest == [] || rest[0] != LF))
  }

  /** Non-empty parts without their delimiters; the URI has no line end, the version is not a bare CR. */
  predicate RequestPartsOk(verb: Bytes, uri: Bytes, version: Bytes) {
    && verb != [] && SP !in verb
    && uri != [] && SP !in uri && CR !in uri && LF !in uri
    && version != [] && version != [CR] && LF !in version
  }

  predicate Grammatical(r: Rules, m: Message) {
    && RequestPartsOk(m.verb, m.uri, m.version)
    && FieldsOk(r, m.fields)
    && BlankOk(m.blank, m.rest)
  }

  function RenderField(f: Field): Bytes { f.key + [COLON] + f.raw + [LF] }

  function RenderFields(fields: seq<Field>): Bytes {
    if fields == [] then [] else RenderField(fields[0]) + RenderFields(fields[1..])
  }

  /** The text of the request line, up to the line feed. */
  function RenderRequestLine(m: Message): Bytes { m.verb + [SP] + m.uri + [SP] + m.version + [LF] }

  function Render(m: Message): Bytes {
    RenderRequestLine(m) + RenderFields(m.fields) + m.blank + m.rest
  }

  // ---------- where the parts lie ----------

  datatype Header = Header(key: View, value: View)

  /** The parsed event: views into the buffer. */
  datatype Event = Event(verb: View, uri: View, headers: seq<Header>, body: View)

  /** The length of a header line, and of several. */
  function Width(f: Field): nat { |f.key| + 1 + |f.raw| + 1 }

  function Widths(fields: seq<Field>): nat { if fields == [] then 0 else Width(fields[0]) + Widths(fields[1..]) }

  /** The header line written at offset `p`. */
  function HeaderAt(buf: Bytes, p: nat, f: Field): Header
    requires p + Width(f) <= |buf|
  {
    var start := p + |f.key| + 1;
    Header(View(p, p + |f.key|), ValueView(buf, start, start + |f.raw|))
  }

  function HeadersAt(buf: Bytes, p: nat, fields: seq<Field>): (hs: seq<Header>)
    requires p + Widths(fields) <= |buf|
    ensures |hs| == |fields|
    decreases fields
  {
    if fields == [] then [] else [HeaderAt(buf, p, fields[0])] + HeadersAt(buf, p + Width(fields[0]), fields[1..])
  }

  /** Skips line ends before the body. */
  function BodyStart(buf: Bytes, p: nat): (r: nat)
    requires p <= |buf|
    ensures p <= r <= |buf|
    decreases |buf| - p
  {
    if p < |buf| && (buf[p] == CR || buf[p] == LF) then BodyStart(buf, p + 1) else p
  }

  /** What follows the empty line: nothing, or the body without leading line ends and without one final NUL. */
  function BodyAt(buf: Bytes, p: nat): (v: View)
    requires p <= |buf|
    ensures v.View? ==> p <= v.lo <= v.hi <= |buf|
  {
    if p == |buf| then NoView
    else
      var start := BodyStart(buf, p);
      View(start, if start < |buf| && buf[|buf| - 1] == NUL then |buf| - 1 else |buf|)
  }

  /** Where the URI, the version, the header lines and the empty line start, and the total length. */
  function UriOffset(m: Message): nat { |m.verb| + 1 }
  function VersionOffset(m: Message): nat { UriOffset(m) + |m.uri| + 1 }
  function FieldsOffset(m: Message): nat { VersionOffset(m) + |m.version| + 1 }
  function BlankOffset(m: Message): nat { FieldsOffset(m) + Widths(m.fields) }
  function Length(m: Message): nat { BlankOffset(m) + |m.blank| + |m.rest| }

  /** The event whose views cover the parts of `m` as they stand in `buf`. */
  function Layout(buf: Bytes, m: Message): Event
    requires |buf| == Length(m)
  {
    Event(View(0, |m.verb|), View(UriOffset(m), UriOffset(m) + |m.uri|),
          HeadersAt(buf, FieldsOffset(m), m.fields), BodyAt(buf, BlankOffset(m) + |m.blank|))
  }

  /** `s` stands at offset `p` of the buffer. */
  ghost predicate Stands(buf: Bytes, p: nat, s: Bytes) {
    p + |s| <= |buf| && forall i :: 0 <= i < |s| ==> buf[p + i] == s[i]
  }

  /** The header line of `f` stands at offset `p`. */
  ghost predicate FieldStands(buf: Bytes, p: nat, f: Field) {
    && p + Width(f) <= |buf|
    && Stands(buf, p, f.key) && buf[p + |f.key|] == COLON
    && Stands(buf, p + |f.key| + 1, f.raw) && buf[p + |f.key| + 1 + |f.raw|] == LF
  }

  ghost predicate FieldsStand(buf: Bytes, p: nat, fields: seq<Field>)
    decreases fields
  {
    fields != [] ==> FieldStands(buf, p, fields[0]) && FieldsStand(buf, p + Width(fields[0]), fields[1..])
  }

  /** The request line stands at the start of the buffer. */
  ghost predicate RequestLineStands(buf: Bytes, verb: Bytes, uri: Bytes, version: Bytes) {
    var u := |verb| + 1;
    var v := u + |uri| + 1;
    && v + |version| < |buf|
    && Stands(buf, 0, verb) && buf[|verb|] == SP
    && Stands(buf, u, uri) && buf[u + |uri|] == SP
    && Stands(buf, v, version) && buf[v + |version|] == LF
  }

  /** `buf` is `m` written out, part by part. */
  ghost predicate Written(buf: Bytes, m: Message) {
    && |buf| == Length(m)
    && RequestLineStands(buf, m.verb, m.uri, m.version)
    && FieldsStand(buf, FieldsOffset(m), m.fields)
    && Stands(buf, BlankOffset(m), m.blank) && Stands(buf, BlankOffset(m) + |m.blank|, m.rest)
  }

  lemma StandsIsSlice(buf: Bytes, p: nat, s: Bytes)
    requires p + |s| <= |buf|
    ensures Stands(buf, p, s) <==> buf[p..p + |s|] == s
  {
    if buf[p..p + |s|] == s {
      forall i | 0 <= i < |s| ensures buf[p + i] == s[i] {
        assert buf[p..p + |s|][i] == buf[p + i];
      }
    }
  }

  lemma StandsSlice(buf: Bytes, p: nat, s: Bytes, lo: nat, hi: nat)
    requires Stands(buf, p, s) && lo <= hi <= |s|
    ensures buf[p + lo..p + hi] == s[lo..hi]
  {
    forall k | 0 <= k < hi - lo ensures buf[p + lo..p + hi][k] == s[lo..hi][k] {
      assert buf[p + (lo + k)] == s[lo + k];
    }
  }

  // ---------- written part by part, or rendered as a whole ----------

  lemma StandsAppend(buf: Bytes, p: nat, a: Bytes, b: Bytes)
    ensures Stands(buf, p, a + b) <==> Stands(buf, p, a) && Stands(buf, p + |a|, b)
  {
    if Stands(buf, p, a + b) {
      forall i | 0 <= i < |a| ensures buf[p + i] == a[i] {
        assert (a + b)[i] == a[i];
      }
      forall i | 0 <= i < |b| ensures buf[p + |a| + i] == b[i] {
        assert (a + b)[|a| + i] == b[i];
      }
    }
    if Stands(buf, p, a) && Stands(buf, p + |a|, b) {
      forall i | 0 <= i < |a + b| ensures buf[p + i] == (a + b)[i] {
        if i >= |a| {
          assert buf[p + |a| + (i - |a|)] == b[i - |a|];
        }
      }
    }
  }

  lemma StandsByte(buf: Bytes, p: nat, b: Byte)
    ensures Stands(buf, p, [b]) <==> p < |buf| && buf[p] == b
  {
    if Stands(buf, p, [b]) {
      assert buf[p + 0] == [b][0];
    }
  }

  lemma FieldRendered(buf: Bytes, p: nat, f: Field)
    ensures |RenderField(f)| == Width(f)
    ensures FieldStands(buf, p, f) <==> Stands(buf, p, RenderField(f))
  {
    StandsAppend(buf, p, f.key + [COLON] + f.raw, [LF]);
    StandsAppend(buf, p, f.key + [COLON], f.raw);
    StandsAppend(buf, p, f.key, [COLON]);
    StandsByte(buf, p + |f.key|, COLON);
    StandsByte(buf, p + |f.key| + 1 + |f.raw|, LF);
  }

  lemma {:induction false} FieldsRendered(buf: Bytes, p: nat, fields: seq<Field>)
    requires p <= |buf|
    ensures |RenderFields(fields)| == Widths(fields)
    ensures FieldsStand(buf, p, fields) <==> Stands(buf, p, RenderFields(fields))
    decreases fields
  {
    if fields != [] {
      var f := fields[0];
      FieldRendered(buf, p, f);
      StandsAppend(buf, p, RenderField(f), RenderFields(fields[1..]));
      if p + Width(f) <= |buf| {
        FieldsRendered(buf, p + Width(f), fields[1..]);
      } else {
        RenderedWidths(fields[1..]);
      }
    }
  }

  lemma {:induction false} RenderedWidths(fields: seq<Field>)
    ensures |RenderFields(fields)| == Widths(fields)
    decreases fields
  {
    if fields != [] {
      RenderedWidths(fields[1..]);
    }
  }

  lemma StandsWhole(buf: Bytes, s: Bytes)
    ensures buf == s <==> |buf| == |s| && Stands(buf, 0, s)
  {
    if |buf| == |s| && Stands(buf, 0, s) {
      forall i | 0 <= i < |s| ensures buf[i] == s[i] {
        assert buf[0 + i] == s[i];
      }
    }
  }

  lemma RequestLineRendered(buf: Bytes, m: Message)
    ensures |RenderRequestLine(m)| == FieldsOffset(m)
    ensures Stands(buf, 0, RenderRequestLine(m)) <==> RequestLineStands(buf, m.verb, m.uri, m.version)
  {
    var a := m.verb + [SP];
    var b := a + m.uri;
    var c := b + [SP];
    var d := c + m.version;
    StandsAppend(buf, 0, d, [LF]);
    StandsAppend(buf, 0, c, m.version);
    StandsAppend(buf, 0, b, [SP]);
    StandsAppend(buf, 0, a, m.uri);
    StandsAppend(buf, 0, m.verb, [SP]);
    StandsByte(buf, |m.verb|, SP);
    StandsByte(buf, |b|, SP);
    StandsByte(buf, |d|, LF);
  }

  lemma RenderStands(buf: Bytes, m: Message, p: nat, q: nat)
    requires p == FieldsOffset(m) && q == BlankOffset(m)
    ensures |Render(m)| == Length(m)
    ensures Stands(buf, 0, Render(m)) <==>
            && Stands(buf, 0, RenderRequestLine(m)) && Stands(buf, p, RenderFields(m.fields))
            && Stands(buf, q, m.blank) && Stands(buf, q + |m.blank|, m.rest)
  {
    var line := RenderRequestLine(m);
    var x := line + RenderFields(m.fields);
    RequestLineRendered(buf, m);
    RenderedWidths(m.fields);
    StandsAppend(buf, 0, x + m.blank, m.rest);
    StandsAppend(buf, 0, x, m.blank);
    StandsAppend(buf, 0, line, RenderFields(m.fields));
  }

  /** Written part by part is rendered as a whole. */
  lemma WrittenIffRendered(buf: Bytes, m: Message)
    ensures Written(buf, m) <==> buf == Render(m)
    ensures |Render(m)| == Length(m)
  {
    RenderStands(buf, m, FieldsOffset(m), BlankOffset(m));
    RequestLineRendered(buf, m);
    StandsWhole(buf, Render(m));
    if FieldsOffset(m) <= |buf| {
      FieldsRendered(buf, FieldsOffset(m), m.fields);
    }
  }

  // ---------- a value does not depend on where its line stands ----------

  lemma {:induction false} SkipBlanksShift(buf: Bytes, p: nat, raw: Bytes, lo: nat, hi: nat)
    requires Stands(buf, p, raw) && lo <= hi <= |raw|
    ensures SkipBlanks(buf, p + lo, p + hi) == p + SkipBlanks(raw, lo, hi)
    decreases hi - lo
  {
    if lo < hi {
      assert buf[p + (lo)] == raw[lo];
      if Blank(raw[lo]) {
        SkipBlanksShift(buf, p, raw, lo + 1, hi);
      }
    }
  }

  lemma {:induction false} DropBlanksShift(buf: Bytes, p: nat, raw: Bytes, lo: nat, hi: nat)
    requires Stands(buf, p, raw) && lo <= hi <= |raw|
    ensures DropBlanks(buf, p + lo, p + hi) == p + DropBlanks(raw, lo, hi)
    decreases hi - lo
  {
    if lo < hi {
      assert buf[p + (hi - 1)] == raw[hi - 1];
      if Blank(raw[hi - 1]) {
        DropBlanksShift(buf, p, raw, lo, hi - 1);
      }
    }
  }

  lemma ValueViewShift(buf: Bytes, p: nat, raw: Bytes)
    requires Stands(buf, p, raw)
    ensures var v := ValueView(raw, 0, |raw|); ValueView(buf, p, p + |raw|) == View(p + v.lo, p + v.hi)
  {
    if raw != [] {
      assert buf[p + (|raw| - 1)] == raw[|raw| - 1];
    }
    var end := DropCr(raw, 0, |raw|);
    SkipBlanksShift(buf, p, raw, 0, end);
    DropBlanksShift(buf, p, raw, SkipBlanks(raw, 0, end), end);
  }

  lemma ValueShift(buf: Bytes, p: nat, raw: Bytes)
    requires Stands(buf, p, raw)
    ensures Text(buf, ValueView(buf, p, p + |raw|)) == Value(raw)
  {
    ValueViewShift(buf, p, raw);
    var v := ValueView(raw, 0, |raw|);
    StandsSlice(buf, p, raw, v.lo, v.hi);
  }

  /** The value is the largest trim of its line: only blanks, and at most one final carriage return, are
      left out, and it neither begins nor ends with a blank. */
  lemma ValueIsMaximalTrim(raw: Bytes)
    ensures var v, end := ValueView(raw, 0, |raw|), DropCr(raw, 0, |raw|);
            && Value(raw) == raw[v.lo..v.hi]
            && (end == |raw| || (end == |raw| - 1 && raw[end] == CR))
            && (forall i :: 0 <= i < v.lo ==> Blank(raw[i])) && (forall i :: v.hi <= i < end ==> Blank(raw[i]))
            && (Value(raw) != [] ==> !Blank(Value(raw)[0]) && !Blank(Value(raw)[|Value(raw)| - 1]))
  {
    var end := DropCr(raw, 0, |raw|);
    SkippedAreBlank(raw, 0, end);
    DroppedAreBlank(raw, SkipBlanks(raw, 0, end), end);
  }
}
