/** What the parser gives back, in terms of texts: the parts of the message, in order, and the round trip
through printing. */
module HttpRoundTrip {
  import opened ByteStrings
  import opened HttpGrammar
  import opened HttpSpec

  /** The buffers accepted are exactly the renderings of grammatical messages. */
  lemma AcceptedIffGrammatical(r: Rules, buf: Bytes)
    ensures Parse(r, buf).Some? <==> exists m :: Grammatical(r, m) && buf == Render(m)
  {
    if Parse(r, buf).Some? {
      var m := ParsedIsMessage(r, buf);
    }
    if m :| Grammatical(r, m) && buf == Render(m) {
      MessageParsed(r, buf, m);
    }
  }

  // ---------- texts ----------

  /** The body a message carries: what follows the empty line, less leading line ends and one final NUL. */
  function Body(rest: Bytes): Bytes { Text(rest, BodyAt(rest, 0)) }

  lemma {:induction false} BodyStartShift(buf: Bytes, p: nat, rest: Bytes, i: nat)
    requires Stands(buf, p, rest) && p + |rest| == |buf| && i <= |rest|
    ensures BodyStart(buf, p + i) == p + BodyStart(rest, i)
    decreases |rest| - i
  {
    if i < |rest| {
      assert buf[p + i] == rest[i];
      if rest[i] == CR || rest[i] == LF {
        BodyStartShift(buf, p, rest, i + 1);
      }
    }
  }

  /** The view lies inside the buffer and covers the text `s`. */
  ghost predicate Reads(buf: Bytes, v: View, s: Bytes) {
    (v.View? ==> v.lo <= v.hi <= |buf|) && Text(buf, v) == s
  }

  lemma ViewReads(buf: Bytes, p: nat, s: Bytes)
    requires Stands(buf, p, s)
    ensures Reads(buf, View(p, p + |s|), s)
  {
    StandsIsSlice(buf, p, s);
  }

  lemma BodyReads(buf: Bytes, p: nat, rest: Bytes)
    requires Stands(buf, p, rest) && p + |rest| == |buf|
    ensures Reads(buf, BodyAt(buf, p), Body(rest))
  {
    if rest != [] {
      BodyStartShift(buf, p, rest, 0);
      assert buf[p + (|rest| - 1)] == rest[|rest| - 1];
      var v := BodyAt(rest, 0);
      StandsSlice(buf, p, rest, v.lo, v.hi);
    }
  }

  ghost predicate HeadersRead(buf: Bytes, hs: seq<Header>, fields: seq<Field>) {
    |hs| == |fields| && forall i :: 0 <= i < |hs| ==> HeaderReads(buf, hs[i], fields[i])
  }

  ghost predicate HeaderReads(buf: Bytes, h: Header, f: Field) {
    Reads(buf, h.key, f.key) && Reads(buf, h.value, Value(f.raw))
  }

  lemma HeaderText(buf: Bytes, p: nat, f: Field)
    requires FieldStands(buf, p, f)
    ensures HeaderReads(buf, HeaderAt(buf, p, f), f)
  {
    ViewReads(buf, p, f.key);
    ValueShift(buf, p + |f.key| + 1, f.raw);
  }

  lemma {:induction false} HeadersText(buf: Bytes, p: nat, fields: seq<Field>)
    requires FieldsStand(buf, p, fields) && p + Widths(fields) <= |buf|
    ensures HeadersRead(buf, HeadersAt(buf, p, fields), fields)
    decreases fields
  {
    if fields != [] {
      var hs := HeadersAt(buf, p, fields);
      HeaderText(buf, p, fields[0]);
      HeadersText(buf, p + Width(fields[0]), fields[1..]);
      forall i | 0 <= i < |hs| ensures HeaderReads(buf, hs[i], fields[i]) {
        if i > 0 {
          assert hs[i] == HeadersAt(buf, p + Width(fields[0]), fields[1..])[i - 1];
          assert fields[i] == fields[1..][i - 1];
        }
      }
    }
  }

  /** The views read as the message's method, URI, keys, trimmed values and body. */
  ghost predicate ReadsAs(buf: Bytes, ev: Event, m: Message) {
    && Reads(buf, ev.verb, m.verb) && Reads(buf, ev.uri, m.uri)
    && HeadersRead(buf, ev.headers, m.fields)
    && Reads(buf, ev.body, Body(m.rest))
  }

  lemma RequestLineReads(buf: Bytes, m: Message)
    requires |buf| == Length(m) && RequestLineStands(buf, m.verb, m.uri, m.version)
    ensures Reads(buf, Layout(buf, m).verb, m.verb) && Reads(buf, Layout(buf, m).uri, m.uri)
  {
    ViewReads(buf, 0, m.verb);
    ViewReads(buf, UriOffset(m), m.uri);
  }

  lemma FieldsRead(buf: Bytes, m: Message)
    requires |buf| == Length(m) && FieldsStand(buf, FieldsOffset(m), m.fields)
    ensures HeadersRead(buf, Layout(buf, m).headers, m.fields)
  {
    HeadersText(buf, FieldsOffset(m), m.fields);
  }

  lemma RestReads(buf: Bytes, m: Message)
    requires |buf| == Length(m) && Stands(buf, BlankOffset(m) + |m.blank|, m.rest)
    ensures Reads(buf, Layout(buf, m).body, Body(m.rest))
  {
    var p := BlankOffset(m) + |m.blank|;
    assert Layout(buf, m).body == BodyAt(buf, p);
    BodyReads(buf, p, m.rest);
  }

  lemma LayoutReads(buf: Bytes, m: Message)
    requires Written(buf, m)
    ensures ReadsAs(buf, Layout(buf, m), m)
  {
    RequestLineReads(buf, m);
    FieldsRead(buf, m);
    RestReads(buf, m);
  }

  /** Whatever is parsed out of an accepted buffer reads as the parts of the message it was written from. */
  lemma ParsedReadsAsMessage(r: Rules, buf: Bytes, m: Message)
    requires Grammatical(r, m) && buf == Render(m)
    ensures Parse(r, buf).Some? && ReadsAs(buf, Parse(r, buf).value, m)
  {
    MessageParsed(r, buf, m);
    WrittenIffRendered(buf, m);
    LayoutReads(buf, m);
  }

  // ---------- order ----------

  /** Keys and values follow one another in the buffer without overlap, from `lo` to `hi`. */
  ghost predicate InOrder(hs: seq<Header>, lo: nat, hi: nat)
    decreases hs
  {
    if hs == [] then lo <= hi
    else
      && hs[0].key.View? && hs[0].value.View?
      && lo <= hs[0].key.lo <= hs[0].key.hi < hs[0].value.lo <= hs[0].value.hi
      && InOrder(hs[1..], hs[0].value.hi + 1, hi)
  }

  lemma {:induction false} InOrderFromEarlier(hs: seq<Header>, lo: nat, lo': nat, hi: nat)
    requires InOrder(hs, lo, hi) && lo' <= lo
    ensures InOrder(hs, lo', hi)
  {
  }

  lemma {:induction false} HeadersInOrder(buf: Bytes, p: nat, fields: seq<Field>)
    requires p + Widths(fields) <= |buf|
    ensures InOrder(HeadersAt(buf, p, fields), p, p + Widths(fields))
    decreases fields
  {
    if fields != [] {
      var hs, q := HeadersAt(buf, p, fields), p + Width(fields[0]);
      HeadersInOrder(buf, q, fields[1..]);
      assert hs[1..] == HeadersAt(buf, q, fields[1..]);
      InOrderFromEarlier(hs[1..], q, hs[0].value.hi + 1, q + Widths(fields[1..]));
    }
  }

  /** The views of `ev` lie inside a buffer of `n` bytes, in order and without overlap; `end` is where the
      header lines end. */
  ghost predicate Ordered(ev: Event, end: nat, n: nat) {
    && ev.verb.View? && ev.uri.View?
    && 0 == ev.verb.lo < ev.verb.hi < ev.uri.lo < ev.uri.hi
    && InOrder(ev.headers, ev.uri.hi + 1, end) && end < n
    && (ev.body.View? ==> end < ev.body.lo <= ev.body.hi <= n)
  }

  lemma LayoutOrdered(buf: Bytes, m: Message)
    requires |buf| == Length(m) && m.verb != [] && m.uri != [] && m.blank != []
    ensures Ordered(Layout(buf, m), BlankOffset(m), |buf|)
  {
    var ev := Layout(buf, m);
    HeadersInOrder(buf, FieldsOffset(m), m.fields);
    InOrderFromEarlier(ev.headers, FieldsOffset(m), ev.uri.hi + 1, BlankOffset(m));
  }

  /** Every view of an accepted buffer lies inside it; they come in order and do not overlap. */
  lemma ViewsInOrder(r: Rules, buf: Bytes)
    requires Parse(r, buf).Some?
    ensures exists end :: Ordered(Parse(r, buf).value, end, |buf|)
  {
    var m := ParsedIsWritten(r, buf);
    LayoutOrdered(buf, m);
  }

  // ---------- printing and parsing ----------

  datatype Pair = Pair(key: Bytes, value: Bytes)

  /** A request as its sender thinks of it. */
  datatype Request = Request(verb: Bytes, uri: Bytes, pairs: seq<Pair>, body: Bytes)

  /** A value that is its own trim. */
  predicate Trimmed(value: Bytes) {
    LF !in value && (value != [] ==> !Blank(value[0]) && !Blank(value[|value| - 1]))
  }

  /** A body that neither starts with a line end nor ends in NUL. */
  predicate BodyOk(body: Bytes) {
    body != [] ==> body[0] != CR && body[0] != LF && body[|body| - 1] != NUL
  }

  predicate PairPrintable(r: Rules, p: Pair) { KeyOk(r, p.key) && Trimmed(p.value) && r.value(p.key, p.value) }

  /** The requests that survive: acceptable parts, trimmed values and a body the parser does not shorten. */
  ghost predicate Printable(r: Rules, q: Request) {
    && q.verb != [] && SP !in q.verb
    && q.uri != [] && SP !in q.uri && CR !in q.uri && LF !in q.uri
    && |q.pairs| <= r.maxHeaders
    && (forall i :: 0 <= i < |q.pairs| ==> PairPrintable(r, q.pairs[i]))
    && (forall i :: 0 < i < |q.pairs| ==> r.pair(q.pairs[i - 1].key, q.pairs[i].key))
    && BodyOk(q.body)
  }

  /** The header line `key: value` with a CR LF line end. */
  function CrlfField(p: Pair): Field { Field(p.key, [SP] + p.value + [CR]) }

  function CrlfFields(pairs: seq<Pair>): (fields: seq<Field>)
    ensures |fields| == |pairs| && forall i :: 0 <= i < |pairs| ==> fields[i] == CrlfField(pairs[i])
  {
    seq(|pairs|, i requires 0 <= i < |pairs| => CrlfField(pairs[i]))
  }

  /** The request as a message, with CR LF line ends throughout. */
  function CrlfMessage(q: Request): Message {
    Message(q.verb, q.uri, Ascii("HTTP/1.1") + [CR], CrlfFields(q.pairs), [CR, LF], q.body)
  }

  lemma CrlfValue(value: Bytes)
    requires Trimmed(value)
    ensures Value([SP] + value + [CR]) == value
  {
    var raw := [SP] + value + [CR];
    var end := DropCr(raw, 0, |raw|);
    assert end == |value| + 1;
    if value == [] {
      assert SkipBlanks(raw, 0, end) == 1;
    } else {
      assert raw[1] == value[0] && raw[end - 1] == value[|value| - 1];
      assert SkipBlanks(raw, 0, end) == SkipBlanks(raw, 1, end) == 1;
      assert DropBlanks(raw, 1, end) == end;
    }
    assert raw[1..end] == value;
  }

  lemma CrlfFieldOk(r: Rules, p: Pair)
    requires PairPrintable(r, p)
    ensures FieldOk(r, CrlfField(p))
  {
    CrlfValue(p.value);
  }

  lemma CrlfGrammatical(r: Rules, q: Request)
    requires Printable(r, q)
    ensures Grammatical(r, CrlfMessage(q))
  {
    var m := CrlfMessage(q);
    forall i | 0 <= i < |m.fields| ensures FieldOk(r, m.fields[i]) {
      CrlfFieldOk(r, q.pairs[i]);
    }
    assert m.version[0] == 72;
    assert LF !in m.version;
  }

  lemma BodyKept(body: Bytes)
    requires BodyOk(body)
    ensures Body(body) == body
  {
  }

  /** The parsed event gives back the request. */
  ghost predicate GivesBack(buf: Bytes, ev: Event, q: Request) {
    && Reads(buf, ev.verb, q.verb) && Reads(buf, ev.uri, q.uri) && Reads(buf, ev.body, q.body)
    && |ev.headers| == |q.pairs| && forall i :: 0 <= i < |q.pairs| ==> GivesBackPair(buf, ev.headers[i], q.pairs[i])
  }

  ghost predicate GivesBackPair(buf: Bytes, h: Header, p: Pair) {
    Reads(buf, h.key, p.key) && Reads(buf, h.value, p.value)
  }

  lemma ReadsAsGivesBack(r: Rules, buf: Bytes, ev: Event, q: Request)
    requires Printable(r, q) && ReadsAs(buf, ev, CrlfMessage(q))
    ensures GivesBack(buf, ev, q)
  {
    BodyKept(q.body);
    var m := CrlfMessage(q);
    forall i | 0 <= i < |q.pairs| ensures GivesBackPair(buf, ev.headers[i], q.pairs[i]) {
      assert HeaderReads(buf, ev.headers[i], m.fields[i]);
      CrlfValue(q.pairs[i].value);
    }
  }

  /** Round trip: printing a request with CR LF line ends and parsing it returns the same method, URI,
      headers and body. */
  lemma RoundTrip(r: Rules, q: Request)
    requires Printable(r, q)
    ensures var buf := Render(CrlfMessage(q)); Parse(r, buf).Some? && GivesBack(buf, Parse(r, buf).value, q)
  {
    var m := CrlfMessage(q);
    var buf := Render(m);
    CrlfGrammatical(r, q);
    ParsedReadsAsMessage(r, buf, m);
    ReadsAsGivesBack(r, buf, Parse(r, buf).value, q);
  }

  // ---------- and nothing else survives ----------

  lemma {:induction false} BodyStartPastLineEnds(buf: Bytes, p: nat)
    requires p <= |buf|
    ensures var start := BodyStart(buf, p); start < |buf| ==> buf[start] != CR && buf[start] != LF
    decreases |buf| - p
  {
    if p < |buf| && (buf[p] == CR || buf[p] == LF) {
      BodyStartPastLineEnds(buf, p + 1);
    }
  }

  /** A body read back from behind a line feed keeps its final byte only if that is not NUL. */
  lemma BodyReadBack(buf: Bytes, p: nat, head: Bytes, body: Bytes)
    requires buf == head + body && p <= |buf| && head != [] && head[|head| - 1] == LF
    requires Reads(buf, BodyAt(buf, p), body)
    ensures BodyOk(body)
  {
    BodyStartPastLineEnds(buf, p);
    if body != [] {
      var v := BodyAt(buf, p);
      assert buf[v.lo] == body[0];
      assert buf[|buf| - 1] == body[|body| - 1];
      assert buf[|head| - 1] == LF;
    }
  }

  lemma RenderedHead(q: Request) returns (head: Bytes)
    ensures Render(CrlfMessage(q)) == head + q.body && head != [] && head[|head| - 1] == LF
  {
    var m := CrlfMessage(q);
    head := RenderRequestLine(m) + RenderFields(m.fields) + m.blank;
  }

  lemma ReadValueIsTrimmed(r: Rules, f: Field, p: Pair)
    requires FieldOk(r, f) && f.key == p.key && Value(f.raw) == p.value
    ensures PairPrintable(r, p)
  {
    ValueIsMaximalTrim(f.raw);
  }

  lemma SamePair(buf: Bytes, h: Header, f: Field, p: Pair)
    requires HeaderReads(buf, h, f) && GivesBackPair(buf, h, p)
    ensures f.key == p.key && Value(f.raw) == p.value
  {
  }

  lemma PartsPrintable(r: Rules, buf: Bytes, ev: Event, m: Message, q: Request)
    requires Grammatical(r, m) && ReadsAs(buf, ev, m) && GivesBack(buf, ev, q) && BodyOk(q.body)
    ensures Printable(r, q)
  {
    forall i | 0 <= i < |q.pairs| ensures PairPrintable(r, q.pairs[i]) && m.fields[i].key == q.pairs[i].key {
      SamePair(buf, ev.headers[i], m.fields[i], q.pairs[i]);
      ReadValueIsTrimmed(r, m.fields[i], q.pairs[i]);
    }
  }

  lemma BodyPrintable(buf: Bytes, m: Message, q: Request)
    requires |buf| == Length(m) && buf == Render(CrlfMessage(q)) && Reads(buf, Layout(buf, m).body, q.body)
    ensures BodyOk(q.body)
  {
    var head := RenderedHead(q);
    var p := BlankOffset(m) + |m.blank|;
    assert Layout(buf, m).body == BodyAt(buf, p);
    BodyReadBack(buf, p, head, q.body);
  }

  lemma GivenBackIsPrintable(r: Rules, buf: Bytes, q: Request)
    requires buf == Render(CrlfMessage(q)) && Parse(r, buf).Some? && GivesBack(buf, Parse(r, buf).value, q)
    ensures Printable(r, q)
  {
    var m := ParsedIsWritten(r, buf);
    LayoutReads(buf, m);
    BodyPrintable(buf, m, q);
    PartsPrintable(r, buf, Layout(buf, m), m, q);
  }

  /** The round trip returns the request if and only if the request is printable. */
  lemma RoundTripIffPrintable(r: Rules, q: Request)
    ensures Printable(r, q) <==>
            var buf := Render(CrlfMessage(q)); Parse(r, buf).Some? && GivesBack(buf, Parse(r, buf).value, q)
  {
    var buf := Render(CrlfMessage(q));
    if Printable(r, q) {
      RoundTrip(r, q);
    }
    if Parse(r, buf).Some? && GivesBack(buf, Parse(r, buf).value, q) {
      GivenBackIsPrintable(r, buf, q);
    }
  }
}
