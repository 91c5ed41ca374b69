/** What parsing a buffer means, line by line, and why it is exactly the grammar. */
module HttpSpec {
  import opened Options
  import opened ByteStrings
  import opened HttpGrammar

  /** What each part runs up to. */
  datatype Stop = AtSpace | AtUriEnd | AtLineFeed | AtKeyEnd

  predicate Stops(s: Stop, b: Byte) {
    match s
    case AtSpace => b == SP
    case AtUriEnd => b == SP || b == CR || b == LF
    case AtLineFeed => b == LF
    case AtKeyEnd => b == CR || b == LF || b == COLON
  }

  /** The first offset from `p` on that ends the part, or the length of the buffer. */
  function First(buf: Bytes, p: nat, s: Stop): (i: nat)
    requires p <= |buf|
    ensures p <= i <= |buf|
    decreases |buf| - p
  {
    if p < |buf| && !Stops(s, buf[p]) then First(buf, p + 1, s) else p
  }

  lemma {:induction false} FirstFinds(buf: Bytes, p: nat, s: Stop)
    requires p <= |buf|
    ensures forall k :: p <= k < First(buf, p, s) ==> !Stops(s, buf[k])
    ensures First(buf, p, s) < |buf| ==> Stops(s, buf[First(buf, p, s)])
    decreases |buf| - p
  {
    if p < |buf| && !Stops(s, buf[p]) {
      FirstFinds(buf, p + 1, s);
    }
  }

  /** The delimiter after a part that contains none is the first one found. */
  lemma {:induction false} FirstIs(buf: Bytes, p: nat, s: Stop, i: nat)
    requires p <= i <= |buf| && (i < |buf| ==> Stops(s, buf[i])) && forall k :: p <= k < i ==> !Stops(s, buf[k])
    ensures First(buf, p, s) == i
    decreases i - p
  {
    if p < i {
      FirstIs(buf, p + 1, s, i);
    }
  }

  const NEW_EVENT := Event(NoView, NoView, [], NoView)

  /** How the line at an offset reads, given the headers before it. */
  type Reader = (nat, seq<Header>) -> Line

  /** The whole buffer: request line, header lines, empty line, body. */
  ghost function Parse(r: Rules, buf: Bytes): Option<Event> { ParseWith(LineReader(r, buf), buf) }

  function ParseWith(read: Reader, buf: Bytes): Option<Event> {
    match ReadRequestLine(buf)
    case None => None
    case Some((ev, p)) => ParseFields(read, buf, p, ev)
  }

  /** Method, URI and version, and where the header lines start. */
  function ReadRequestLine(buf: Bytes): Option<(Event, nat)> {
    var m := First(buf, 0, AtSpace);
    if m == |buf| || m == 0 then None else ReadUri(buf, m + 1, NEW_EVENT.(verb := View(0, m)))
  }

  function ReadUri(buf: Bytes, p: nat, ev: Event): Option<(Event, nat)>
    requires p <= |buf|
  {
    var u := First(buf, p, AtUriEnd);
    if u == |buf| || buf[u] != SP || u == p then None else ReadVersion(buf, u + 1, ev.(uri := View(p, u)))
  }

  function ReadVersion(buf: Bytes, p: nat, ev: Event): Option<(Event, nat)>
    requires p <= |buf|
  {
    var v := First(buf, p, AtLineFeed);
    if v == |buf| || v == p || (v == p + 1 && buf[p] == CR) then None else Some((ev, v + 1))
  }

  /** What the line at some offset turns out to be. */
  datatype Line = Bad | Empty | HeaderLine(header: Header, next: nat)

  function LastKey(buf: Bytes, headers: seq<Header>): Bytes {
    if headers == [] then []
    else
      var v := headers[|headers| - 1].key;
      if v.View? && v.lo <= v.hi <= |buf| then buf[v.lo..v.hi] else []
  }

  /** The key in `[p, i)` may start another header. */
  predicate KeyAccepted(r: Rules, buf: Bytes, p: nat, i: nat, headers: seq<Header>)
    requires p <= i <= |buf|
  {
    |headers| < r.maxHeaders && KeyOk(r, buf[p..i]) && (headers != [] ==> r.pair(LastKey(buf, headers), buf[p..i]))
  }

  /** How the rest of a header line reads, behind a key and its colon. */
  type ValueReader = (View, nat) -> Line

  function ReadLine(r: Rules, values: ValueReader, buf: Bytes, p: nat, headers: seq<Header>): Line
    requires p <= |buf|
  {
    var i := First(buf, p, AtKeyEnd);
    if i == |buf| then Bad
    else if buf[i] != COLON then (if i == p then Empty else Bad)
    else if !KeyAccepted(r, buf, p, i, headers) then Bad
    else values(View(p, i), i + 1)
  }

  ghost function ReadValue(r: Rules, buf: Bytes, key: View, p: nat): Line
    requires p <= |buf| && key.View? && key.lo <= key.hi <= |buf|
  {
    var j := First(buf, p, AtLineFeed);
    if j == |buf| || !r.value(Text(buf, key), Text(buf, ValueView(buf, p, j))) then Bad
    else HeaderLine(Header(key, ValueView(buf, p, j)), j + 1)
  }

  ghost function Values(r: Rules, buf: Bytes): ValueReader {
    (key: View, p: nat) =>
      if p <= |buf| && key.View? && key.lo <= key.hi <= |buf| then ReadValue(r, buf, key, p) else Bad
  }

  /** The offset behind the empty line at `p`. */
  function AfterBlank(buf: Bytes, p: nat): (r: nat)
    requires p < |buf|
    ensures p < r <= |buf|
  {
    if buf[p] == CR && p + 1 < |buf| && buf[p + 1] == LF then p + 2 else p + 1
  }

  ghost function LineReader(r: Rules, buf: Bytes): Reader {
    (p: nat, headers: seq<Header>) => if p <= |buf| then ReadLine(r, Values(r, buf), buf, p, headers) else Bad
  }

  function ParseFields(read: Reader, buf: Bytes, p: nat, ev: Event): Option<Event>
    decreases |buf| - p
  {
    match read(p, ev.headers)
    case Bad => None
    case Empty => if p < |buf| then Some(ev.(body := BodyAt(buf, AfterBlank(buf, p)))) else None
    case HeaderLine(h, next) =>
      if p < next <= |buf| then ParseFields(read, buf, next, ev.(headers := ev.headers + [h])) else None
  }

  // ---------- every grammatical message is parsed ----------

  /** The delimiter behind a part that contains none is the first one found. */
  lemma Delimited(buf: Bytes, p: nat, s: Bytes, stop: Stop)
    requires Stands(buf, p, s) && p + |s| < |buf| && Stops(stop, buf[p + |s|])
    requires forall k :: 0 <= k < |s| ==> !Stops(stop, s[k])
    ensures First(buf, p, stop) == p + |s|
  {
    forall k | p <= k < p + |s| ensures !Stops(stop, buf[k]) {
      assert buf[p + (k - p)] == s[k - p];
    }
    FirstIs(buf, p, stop, p + |s|);
  }

  lemma KeyRead(r: Rules, values: ValueReader, buf: Bytes, p: nat, key: Bytes, headers: seq<Header>)
    requires Stands(buf, p, key) && p + |key| < |buf| && buf[p + |key|] == COLON && KeyOk(r, key)
    requires |headers| < r.maxHeaders && (headers != [] ==> r.pair(LastKey(buf, headers), key))
    ensures ReadLine(r, values, buf, p, headers) == values(View(p, p + |key|), p + |key| + 1)
  {
    Delimited(buf, p, key, AtKeyEnd);
    StandsIsSlice(buf, p, key);
  }

  lemma ValueRead(r: Rules, buf: Bytes, key: View, p: nat, raw: Bytes, text: Bytes)
    requires key.View? && key.lo <= key.hi <= |buf| && Stands(buf, p, raw) && p + |raw| < |buf| && buf[p + |raw|] == LF
    requires LF !in raw && text == Text(buf, key) && r.value(text, Value(raw))
    ensures Values(r, buf)(key, p) == HeaderLine(Header(key, ValueView(buf, p, p + |raw|)), p + |raw| + 1)
  {
    Delimited(buf, p, raw, AtLineFeed);
    ValueShift(buf, p, raw);
  }

  lemma FieldReadWith(r: Rules, values: ValueReader, buf: Bytes, p: nat, f: Field, headers: seq<Header>)
    requires FieldStands(buf, p, f) && KeyOk(r, f.key)
    requires |headers| < r.maxHeaders && (headers != [] ==> r.pair(LastKey(buf, headers), f.key))
    requires var q := p + |f.key| + 1;
             values(View(p, p + |f.key|), q)
             == HeaderLine(Header(View(p, p + |f.key|), ValueView(buf, q, q + |f.raw|)), q + |f.raw| + 1)
    ensures ReadLine(r, values, buf, p, headers) == HeaderLine(HeaderAt(buf, p, f), p + Width(f))
  {
    KeyRead(r, values, buf, p, f.key, headers);
  }

  lemma FieldRead(r: Rules, buf: Bytes, p: nat, f: Field, headers: seq<Header>)
    requires FieldStands(buf, p, f) && FieldOk(r, f)
    requires |headers| < r.maxHeaders && (headers != [] ==> r.pair(LastKey(buf, headers), f.key))
    ensures ReadLine(r, Values(r, buf), buf, p, headers) == HeaderLine(HeaderAt(buf, p, f), p + Width(f))
  {
    StandsIsSlice(buf, p, f.key);
    ValueRead(r, buf, View(p, p + |f.key|), p + |f.key| + 1, f.raw, f.key);
    FieldReadWith(r, Values(r, buf), buf, p, f, headers);
  }

  /** An acceptable field standing where a header line may come next. */
  ghost predicate MayComeNext(r: Rules, buf: Bytes, p: nat, headers: seq<Header>, f: Field) {
    && FieldStands(buf, p, f) && FieldOk(r, f)
    && |headers| < r.maxHeaders && (headers != [] ==> r.pair(LastKey(buf, headers), f.key))
  }

  ghost predicate ReadsFields(r: Rules, read: Reader, buf: Bytes) {
    forall p: nat, headers, f {:trigger MayComeNext(r, buf, p, headers, f)} ::
      MayComeNext(r, buf, p, headers, f) ==> read(p, headers) == HeaderLine(HeaderAt(buf, p, f), p + Width(f))
  }

  lemma LineReaderReadsFields(r: Rules, buf: Bytes)
    ensures ReadsFields(r, LineReader(r, buf), buf)
  {
    forall p: nat, headers, f | MayComeNext(r, buf, p, headers, f)
      ensures LineReader(r, buf)(p, headers) == HeaderLine(HeaderAt(buf, p, f), p + Width(f))
    {
      FieldRead(r, buf, p, f, headers);
      ReadByLineReader(r, buf, p, headers, HeaderLine(HeaderAt(buf, p, f), p + Width(f)));
    }
  }

  lemma ReadByLineReader(r: Rules, buf: Bytes, p: nat, headers: seq<Header>, line: Line)
    requires p <= |buf| && ReadLine(r, Values(r, buf), buf, p, headers) == line
    ensures LineReader(r, buf)(p, headers) == line
  {
  }

  ghost predicate EmptyAt(read: Reader, p: nat) { forall headers :: read(p, headers) == Empty }

  /** The empty line of a message is read as one, whatever headers came before. */
  lemma BlankRead(r: Rules, buf: Bytes, p: nat, blank: Bytes, rest: Bytes)
    requires Stands(buf, p, blank) && Stands(buf, p + |blank|, rest) && p + |blank| + |rest| == |buf|
    requires BlankOk(blank, rest)
    ensures p < |buf| && AfterBlank(buf, p) == p + |blank|
    ensures EmptyAt(LineReader(r, buf), p)
  {
    assert buf[p + 0] == blank[0];
    if |blank| > 1 {
      assert buf[p + 1] == blank[1];
    } else if rest != [] {
      assert buf[p + |blank| + 0] == rest[0];
    }
    forall headers ensures LineReader(r, buf)(p, headers) == Empty {
      ReadByLineReader(r, buf, p, headers, Empty);
    }
  }

  lemma LastKeyIs(buf: Bytes, p: nat, f: Field, headers: seq<Header>)
    requires FieldStands(buf, p, f)
    ensures LastKey(buf, headers + [HeaderAt(buf, p, f)]) == f.key
  {
    StandsIsSlice(buf, p, f.key);
  }

  /** The event with the fields standing at `p` and the body found from `after` on. */
  function Extend(buf: Bytes, p: nat, fields: seq<Field>, after: nat, ev: Event): Event
    requires p + Widths(fields) <= |buf| && after <= |buf|
  {
    ev.(headers := ev.headers + HeadersAt(buf, p, fields), body := BodyAt(buf, after))
  }

  lemma ExtendNone(buf: Bytes, p: nat, after: nat, ev: Event)
    requires p <= |buf| && after <= |buf|
    ensures Extend(buf, p, [], after, ev) == ev.(body := BodyAt(buf, after))
  {
    assert ev.headers + [] == ev.headers;
  }

  lemma ExtendStep(buf: Bytes, p: nat, fields: seq<Field>, after: nat, ev: Event)
    requires fields != [] && p + Widths(fields) <= |buf| && after <= |buf|
    ensures Extend(buf, p, fields, after, ev) ==
            Extend(buf, p + Width(fields[0]), fields[1..], after,
                   ev.(headers := ev.headers + [HeaderAt(buf, p, fields[0])]))
  {
    var h, tail := HeaderAt(buf, p, fields[0]), HeadersAt(buf, p + Width(fields[0]), fields[1..]);
    assert ev.headers + ([h] + tail) == ev.headers + [h] + tail;
  }

  /** Each of these fields is read in turn, from `p` on. */
  ghost predicate ReadInTurn(read: Reader, buf: Bytes, p: nat, headers: seq<Header>, fields: seq<Field>)
    decreases fields
  {
    fields != [] ==>
      && p + Width(fields[0]) <= |buf|
      && read(p, headers) == HeaderLine(HeaderAt(buf, p, fields[0]), p + Width(fields[0]))
      && ReadInTurn(read, buf, p + Width(fields[0]), headers + [HeaderAt(buf, p, fields[0])], fields[1..])
  }

  lemma NextReadInTurn(r: Rules, read: Reader, buf: Bytes, p: nat, headers: seq<Header>, f: Field)
    returns (headers': seq<Header>)
    requires ReadsFields(r, read, buf) && MayComeNext(r, buf, p, headers, f)
    ensures p + Width(f) <= |buf| && read(p, headers) == HeaderLine(HeaderAt(buf, p, f), p + Width(f))
    ensures headers' == headers + [HeaderAt(buf, p, f)] && LastKey(buf, headers') == f.key
  {
    LastKeyIs(buf, p, f, headers);
    headers' := headers + [HeaderAt(buf, p, f)];
  }

  lemma {:induction false} FieldsReadInTurn(r: Rules, read: Reader, buf: Bytes, p: nat, headers: seq<Header>,
                                            fields: seq<Field>)
    requires ReadsFields(r, read, buf) && FieldsStand(buf, p, fields) && |headers| + |fields| <= r.maxHeaders
    requires forall i :: 0 <= i < |fields| ==> FieldOk(r, fields[i])
    requires forall i :: 0 < i < |fields| ==> r.pair(fields[i - 1].key, fields[i].key)
    requires headers != [] && fields != [] ==> r.pair(LastKey(buf, headers), fields[0].key)
    ensures ReadInTurn(read, buf, p, headers, fields)
    decreases fields
  {
    if fields != [] {
      var f, tail := fields[0], fields[1..];
      var headers' := NextReadInTurn(r, read, buf, p, headers, f);
      assert forall i :: 0 <= i < |tail| ==> tail[i] == fields[i + 1];
      FieldsReadInTurn(r, read, buf, p + Width(f), headers', tail);
    }
  }

  lemma ParseStep(read: Reader, buf: Bytes, p: nat, ev: Event, h: Header, next: nat, ev': Event, result: Option<Event>)
    requires p < next <= |buf| && read(p, ev.headers) == HeaderLine(h, next) && ev' == ev.(headers := ev.headers + [h])
    requires ParseFields(read, buf, next, ev') == result
    ensures ParseFields(read, buf, p, ev) == result
  {
  }

  /** Parsing from `p` yields exactly these fields and the body from `after` on. */
  ghost predicate ParsedAs(read: Reader, buf: Bytes, p: nat, ev: Event, fields: seq<Field>, after: nat) {
    && p + Widths(fields) <= |buf| && after <= |buf|
    && ParseFields(read, buf, p, ev) == Some(Extend(buf, p, fields, after, ev))
  }

  lemma NoFieldsParsed(read: Reader, buf: Bytes, p: nat, ev: Event, after: nat)
    requires read(p, ev.headers) == Empty && p < |buf| && after == AfterBlank(buf, p)
    ensures ParsedAs(read, buf, p, ev, [], after)
  {
    ExtendNone(buf, p, after, ev);
  }

  lemma OneMoreParsed(read: Reader, buf: Bytes, p: nat, ev: Event, h: Header, ev': Event, fields: seq<Field>,
                      after: nat)
    requires fields != [] && p + Width(fields[0]) <= |buf| && h == HeaderAt(buf, p, fields[0])
    requires read(p, ev.headers) == HeaderLine(h, p + Width(fields[0])) && ev' == ev.(headers := ev.headers + [h])
    requires ParsedAs(read, buf, p + Width(fields[0]), ev', fields[1..], after)
    ensures ParsedAs(read, buf, p, ev, fields, after)
  {
    ExtendStep(buf, p, fields, after, ev);
    ParseStep(read, buf, p, ev, h, p + Width(fields[0]), ev', Some(Extend(buf, p, fields, after, ev)));
  }

  /** Header lines read in turn, then an empty line: the event gets exactly these headers and the body. */
  lemma {:induction false} FieldsParsed(read: Reader, buf: Bytes, p: nat, fields: seq<Field>, after: nat, ev: Event)
    requires ReadInTurn(read, buf, p, ev.headers, fields) && EmptyAt(read, p + Widths(fields))
    requires p + Widths(fields) < |buf| && after == AfterBlank(buf, p + Widths(fields))
    ensures ParsedAs(read, buf, p, ev, fields, after)
    decreases fields
  {
    if fields == [] {
      NoFieldsParsed(read, buf, p, ev, after);
    } else {
      var h, q := HeaderAt(buf, p, fields[0]), p + Width(fields[0]);
      var ev' := ev.(headers := ev.headers + [h]);
      FieldsParsed(read, buf, q, fields[1..], after, ev');
      OneMoreParsed(read, buf, p, ev, h, ev', fields, after);
    }
  }

  function RequestLineEvent(m: Message): Event {
    NEW_EVENT.(verb := View(0, |m.verb|), uri := View(UriOffset(m), UriOffset(m) + |m.uri|))
  }

  lemma RequestLineRead(r: Rules, buf: Bytes, m: Message)
    requires Grammatical(r, m) && Written(buf, m)
    ensures ReadRequestLine(buf) == Some((RequestLineEvent(m), FieldsOffset(m)))
  {
    RequestPartsRead(buf, m.verb, m.uri, m.version);
  }

  lemma RequestPartsRead(buf: Bytes, verb: Bytes, uri: Bytes, version: Bytes)
    requires RequestPartsOk(verb, uri, version) && RequestLineStands(buf, verb, uri, version)
    ensures var u := |verb| + 1;
            var v := u + |uri| + 1;
            ReadRequestLine(buf)
            == Some((NEW_EVENT.(verb := View(0, |verb|), uri := View(u, u + |uri|)), v + |version| + 1))
  {
    var u := |verb| + 1;
    var v := u + |uri| + 1;
    Delimited(buf, 0, verb, AtSpace);
    Delimited(buf, u, uri, AtUriEnd);
    Delimited(buf, v, version, AtLineFeed);
    assert buf[v + 0] == version[0];
    assert |version| == 1 ==> version == [version[0]];
  }

  lemma NothingRead(m: Message, buf: Bytes)
    requires Written(buf, m)
    ensures Extend(buf, FieldsOffset(m), m.fields, BlankOffset(m) + |m.blank|, RequestLineEvent(m)) == Layout(buf, m)
  {
    var hs := HeadersAt(buf, FieldsOffset(m), m.fields);
    assert RequestLineEvent(m).headers + hs == hs;
  }

  lemma RestParsed(r: Rules, read: Reader, buf: Bytes, p: nat, fields: seq<Field>, after: nat, ev: Event)
    requires FieldsOk(r, fields) && FieldsStand(buf, p, fields) && ReadsFields(r, read, buf) && ev.headers == []
    requires p + Widths(fields) < |buf| && AfterBlank(buf, p + Widths(fields)) == after
    requires EmptyAt(read, p + Widths(fields))
    ensures ParsedAs(read, buf, p, ev, fields, after)
  {
    FieldsReadInTurn(r, read, buf, p, [], fields);
    FieldsParsed(read, buf, p, fields, after, ev);
  }

  lemma MessageParsedWith(r: Rules, read: Reader, buf: Bytes, m: Message, after: nat)
    requires Grammatical(r, m) && Written(buf, m) && ReadsFields(r, read, buf) && after == BlankOffset(m) + |m.blank|
    requires BlankOffset(m) < |buf| && AfterBlank(buf, BlankOffset(m)) == after && EmptyAt(read, BlankOffset(m))
    ensures ParseWith(read, buf) == Some(Layout(buf, m))
  {
    RequestLineRead(r, buf, m);
    RestParsed(r, read, buf, FieldsOffset(m), m.fields, after, RequestLineEvent(m));
    LayoutParsed(read, buf, m, RequestLineEvent(m), FieldsOffset(m), after);
  }

  /** Completeness: whatever the grammar writes, the parser reads back, every part where it was written. */
  lemma MessageParsed(r: Rules, buf: Bytes, m: Message)
    requires Grammatical(r, m) && buf == Render(m)
    ensures |buf| == Length(m) && Parse(r, buf) == Some(Layout(buf, m))
  {
    WrittenIffRendered(buf, m);
    LineReaderReadsFields(r, buf);
    BlankRead(r, buf, BlankOffset(m), m.blank, m.rest);
    MessageParsedWith(r, LineReader(r, buf), buf, m, BlankOffset(m) + |m.blank|);
  }

  // ---------- everything parsed is grammatical ----------

  /** The field a header line at `p` ending before `next` was read from. */
  function FieldBetween(buf: Bytes, h: Header, next: nat): Field {
    if h.key.View? && h.key.lo <= h.key.hi < next - 1 < |buf| then
      Field(buf[h.key.lo..h.key.hi], buf[h.key.hi + 1..next - 1])
    else Field([], [])
  }

  ghost predicate IsFieldLine(r: Rules, buf: Bytes, p: nat, headers: seq<Header>, h: Header, next: nat) {
    var f := FieldBetween(buf, h, next);
    MayComeNext(r, buf, p, headers, f) && next == p + Width(f) && h == HeaderAt(buf, p, f)
  }

  /** A line read as a header is the line of an acceptable field, and an empty one starts with a line end. */
  ghost predicate ReadsOnly(r: Rules, read: Reader, buf: Bytes, p: nat, headers: seq<Header>) {
    && (read(p, headers).HeaderLine? ==>
          IsFieldLine(r, buf, p, headers, read(p, headers).header, read(p, headers).next))
    && (read(p, headers).Empty? ==> p < |buf| && (buf[p] == CR || buf[p] == LF))
  }

  lemma SliceStands(buf: Bytes, lo: nat, hi: nat)
    requires lo <= hi <= |buf|
    ensures Stands(buf, lo, buf[lo..hi])
  {
  }

  lemma NoStopInSlice(buf: Bytes, p: nat, s: Stop)
    requires p <= |buf|
    ensures var raw := buf[p..First(buf, p, s)]; forall k :: 0 <= k < |raw| ==> !Stops(s, raw[k])
  {
    FirstFinds(buf, p, s);
  }

  /** What follows a key reads as a header only up to a line feed and with an acceptable value. */
  ghost predicate ReadsValues(r: Rules, values: ValueReader, buf: Bytes, key: View, p: nat) {
    values(key, p).HeaderLine? ==>
      && p <= |buf| && key.View? && key.lo <= key.hi <= |buf|
      && var j := First(buf, p, AtLineFeed);
         && j < |buf| && r.value(Text(buf, key), Text(buf, ValueView(buf, p, j)))
         && values(key, p) == HeaderLine(Header(key, ValueView(buf, p, j)), j + 1)
  }

  lemma ValueSound(r: Rules, buf: Bytes, key: View, p: nat)
    ensures ReadsValues(r, Values(r, buf), buf, key, p)
  {
  }

  lemma RawValue(buf: Bytes, p: nat)
    requires p <= |buf|
    ensures var j := First(buf, p, AtLineFeed);
            && (j < |buf| ==> buf[j] == LF) && LF !in buf[p..j]
            && Text(buf, ValueView(buf, p, j)) == Value(buf[p..j])
  {
    var j := First(buf, p, AtLineFeed);
    FirstFinds(buf, p, AtLineFeed);
    NoStopInSlice(buf, p, AtLineFeed);
    SliceStands(buf, p, j);
    ValueShift(buf, p, buf[p..j]);
  }

  lemma KeySound(r: Rules, values: ValueReader, buf: Bytes, p: nat, headers: seq<Header>)
    requires p <= |buf| && ReadLine(r, values, buf, p, headers).HeaderLine?
    ensures var i := First(buf, p, AtKeyEnd);
            && i < |buf| && buf[i] == COLON && KeyAccepted(r, buf, p, i, headers)
            && ReadLine(r, values, buf, p, headers) == values(View(p, i), i + 1)
  {
  }

  /** A key, a colon, a raw value and a line feed make a field, if the key and the value are acceptable. */
  lemma FieldFromParts(r: Rules, buf: Bytes, p: nat, i: nat, j: nat, headers: seq<Header>, text: Bytes)
    requires p <= i < j < |buf| && buf[i] == COLON && buf[j] == LF && LF !in buf[i + 1..j]
    requires KeyAccepted(r, buf, p, i, headers) && text == Value(buf[i + 1..j]) && r.value(buf[p..i], text)
    ensures MayComeNext(r, buf, p, headers, Field(buf[p..i], buf[i + 1..j]))
  {
    SliceStands(buf, p, i);
    SliceStands(buf, i + 1, j);
  }

  lemma FieldLaidOut(buf: Bytes, p: nat, i: nat, j: nat, f: Field, h: Header)
    requires p <= i < j < |buf|
    requires f == Field(buf[p..i], buf[i + 1..j]) && h == Header(View(p, i), ValueView(buf, i + 1, j))
    ensures f == FieldBetween(buf, h, j + 1) && j + 1 == p + Width(f) && h == HeaderAt(buf, p, f)
  {
  }

  /** A line that is a header is the line of an acceptable field. */
  ghost predicate LineIsField(r: Rules, buf: Bytes, p: nat, headers: seq<Header>, line: Line) {
    line.HeaderLine? ==> IsFieldLine(r, buf, p, headers, line.header, line.next)
  }

  lemma ItIsFieldLine(r: Rules, buf: Bytes, p: nat, headers: seq<Header>, f: Field, h: Header, next: nat)
    requires MayComeNext(r, buf, p, headers, f) && f == FieldBetween(buf, h, next)
    requires next == p + Width(f) && h == HeaderAt(buf, p, f)
    ensures LineIsField(r, buf, p, headers, HeaderLine(h, next))
  {
  }

  lemma PartsMayCome(r: Rules, buf: Bytes, p: nat, i: nat, j: nat, headers: seq<Header>, text: Bytes, f: Field)
    requires p <= i < j < |buf| && buf[i] == COLON && KeyAccepted(r, buf, p, i, headers)
    requires j == First(buf, i + 1, AtLineFeed) && text == Text(buf, ValueView(buf, i + 1, j))
    requires r.value(buf[p..i], text) && f == Field(buf[p..i], buf[i + 1..j])
    ensures MayComeNext(r, buf, p, headers, f)
  {
    RawValue(buf, i + 1);
    FieldFromParts(r, buf, p, i, j, headers, text);
  }

  lemma PartsAreFieldLine(r: Rules, buf: Bytes, p: nat, i: nat, j: nat, headers: seq<Header>, f: Field, h: Header)
    requires p <= i < j < |buf| && MayComeNext(r, buf, p, headers, f)
    requires f == Field(buf[p..i], buf[i + 1..j]) && h == Header(View(p, i), ValueView(buf, i + 1, j))
    ensures LineIsField(r, buf, p, headers, HeaderLine(h, j + 1))
  {
    FieldLaidOut(buf, p, i, j, f, h);
    ItIsFieldLine(r, buf, p, headers, f, h, j + 1);
  }

  lemma FieldSoundWith(r: Rules, values: ValueReader, buf: Bytes, p: nat, headers: seq<Header>, i: nat, line: Line)
    requires p <= |buf| && line == ReadLine(r, values, buf, p, headers) && line.HeaderLine?
    requires i == First(buf, p, AtKeyEnd) && ReadsValues(r, values, buf, View(p, i), i + 1)
    ensures LineIsField(r, buf, p, headers, line)
  {
    KeySound(r, values, buf, p, headers);
    var j := First(buf, i + 1, AtLineFeed);
    var v := ValueView(buf, i + 1, j);
    assert line == HeaderLine(Header(View(p, i), v), j + 1);
    var f := Field(buf[p..i], buf[i + 1..j]);
    PartsMayCome(r, buf, p, i, j, headers, Text(buf, v), f);
    PartsAreFieldLine(r, buf, p, i, j, headers, f, Header(View(p, i), v));
  }

  lemma FieldSound(r: Rules, buf: Bytes, p: nat, headers: seq<Header>)
    requires p <= |buf| && ReadLine(r, Values(r, buf), buf, p, headers).HeaderLine?
    ensures var line := ReadLine(r, Values(r, buf), buf, p, headers);
            IsFieldLine(r, buf, p, headers, line.header, line.next)
  {
    var i := First(buf, p, AtKeyEnd);
    ValueSound(r, buf, View(p, i), i + 1);
    FieldSoundWith(r, Values(r, buf), buf, p, headers, i, ReadLine(r, Values(r, buf), buf, p, headers));
  }

  lemma LineReaderReadsOnly(r: Rules, buf: Bytes, p: nat, headers: seq<Header>)
    ensures ReadsOnly(r, LineReader(r, buf), buf, p, headers)
  {
    var line := LineReader(r, buf)(p, headers);
    if line.HeaderLine? {
      FieldSound(r, buf, p, headers);
    } else if line.Empty? {
      FirstFinds(buf, p, AtKeyEnd);
    }
  }

  /** Acceptable fields that may follow the headers already read. */
  ghost predicate MayFollow(r: Rules, buf: Bytes, headers: seq<Header>, fields: seq<Field>) {
    && |headers| + |fields| <= r.maxHeaders
    && (forall i :: 0 <= i < |fields| ==> FieldOk(r, fields[i]))
    && (forall i :: 0 < i < |fields| ==> r.pair(fields[i - 1].key, fields[i].key))
    && (headers != [] && fields != [] ==> r.pair(LastKey(buf, headers), fields[0].key))
  }

  lemma PrependField(r: Rules, buf: Bytes, p: nat, headers: seq<Header>, fields: seq<Field>)
    requires fields != [] && MayComeNext(r, buf, p, headers, fields[0])
    requires MayFollow(r, buf, headers + [HeaderAt(buf, p, fields[0])], fields[1..])
    ensures MayFollow(r, buf, headers, fields)
  {
    var rest := fields[1..];
    LastKeyIs(buf, p, fields[0], headers);
    assert forall i :: 1 <= i < |fields| ==> fields[i] == rest[i - 1];
  }

  /** Acceptable fields stand at `p`, followed by an empty line up to `after`. */
  ghost predicate StandBeforeBlank(r: Rules, buf: Bytes, p: nat, headers: seq<Header>, fields: seq<Field>, after: nat) {
    && FieldsStand(buf, p, fields) && MayFollow(r, buf, headers, fields)
    && var b := p + Widths(fields); b < |buf| && (buf[b] == CR || buf[b] == LF) && after == AfterBlank(buf, b)
  }

  lemma StandOneMore(r: Rules, buf: Bytes, p: nat, headers: seq<Header>, fields: seq<Field>, after: nat)
    requires fields != [] && MayComeNext(r, buf, p, headers, fields[0])
    requires StandBeforeBlank(r, buf, p + Width(fields[0]), headers + [HeaderAt(buf, p, fields[0])], fields[1..], after)
    ensures StandBeforeBlank(r, buf, p, headers, fields, after)
  {
    PrependField(r, buf, p, headers, fields);
  }

  lemma FieldTaken(r: Rules, read: Reader, buf: Bytes, p: nat, headers: seq<Header>) returns (f: Field)
    requires ReadsOnly(r, read, buf, p, headers) && read(p, headers).HeaderLine?
    ensures MayComeNext(r, buf, p, headers, f) && read(p, headers) == HeaderLine(HeaderAt(buf, p, f), p + Width(f))
  {
    f := FieldBetween(buf, read(p, headers).header, read(p, headers).next);
  }

  ghost predicate ReadsOnlyFields(r: Rules, read: Reader, buf: Bytes) {
    forall q: nat, hs: seq<Header> {:trigger ReadsOnly(r, read, buf, q, hs)} :: ReadsOnly(r, read, buf, q, hs)
  }

  /** The fields stand in the buffer and are what the parser makes of it. */
  ghost predicate Found(r: Rules, read: Reader, buf: Bytes, p: nat, ev: Event, fields: seq<Field>, after: nat) {
    StandBeforeBlank(r, buf, p, ev.headers, fields, after) && ParsedAs(read, buf, p, ev, fields, after)
  }

  ghost predicate FoundSome(r: Rules, read: Reader, buf: Bytes, p: nat, ev: Event) {
    exists fields, after: nat :: Found(r, read, buf, p, ev, fields, after)
  }

  lemma FoundNone(r: Rules, read: Reader, buf: Bytes, p: nat, ev: Event)
    requires read(p, ev.headers).Empty? && ReadsOnly(r, read, buf, p, ev.headers) && |ev.headers| <= r.maxHeaders
    ensures FoundSome(r, read, buf, p, ev)
  {
    var after := AfterBlank(buf, p);
    NoFieldsParsed(read, buf, p, ev, after);
    assert Found(r, read, buf, p, ev, [], after);
  }

  lemma FoundLonger(
    r: Rules, read: Reader, buf: Bytes, p: nat, ev: Event, f: Field, h: Header, next: nat, ev': Event,
    rest: seq<Field>, after: nat)
    requires MayComeNext(r, buf, p, ev.headers, f) && h == HeaderAt(buf, p, f) && next == p + Width(f)
    requires read(p, ev.headers) == HeaderLine(h, next) && ev' == ev.(headers := ev.headers + [h])
    requires Found(r, read, buf, next, ev', rest, after)
    ensures FoundSome(r, read, buf, p, ev)
  {
    var fields := [f] + rest;
    assert fields[0] == f && fields[1..] == rest;
    StandOneMore(r, buf, p, ev.headers, fields, after);
    OneMoreParsed(read, buf, p, ev, h, ev', fields, after);
    assert Found(r, read, buf, p, ev, fields, after);
  }

  lemma FoundOneMore(r: Rules, read: Reader, buf: Bytes, p: nat, ev: Event, f: Field, h: Header, next: nat, ev': Event)
    requires MayComeNext(r, buf, p, ev.headers, f) && h == HeaderAt(buf, p, f) && next == p + Width(f)
    requires read(p, ev.headers) == HeaderLine(h, next) && ev' == ev.(headers := ev.headers + [h])
    requires FoundSome(r, read, buf, next, ev')
    ensures FoundSome(r, read, buf, p, ev)
  {
    var rest, after: nat :| Found(r, read, buf, next, ev', rest, after);
    FoundLonger(r, read, buf, p, ev, f, h, next, ev', rest, after);
  }

  lemma ParsedGoesOn(read: Reader, buf: Bytes, p: nat, ev: Event, h: Header, next: nat)
    requires ParseFields(read, buf, p, ev).Some? && read(p, ev.headers) == HeaderLine(h, next)
    ensures p < next <= |buf| && ParseFields(read, buf, next, ev.(headers := ev.headers + [h])).Some?
  {
  }

  lemma ParsedStarts(read: Reader, buf: Bytes, p: nat, ev: Event)
    requires ParseFields(read, buf, p, ev).Some?
    ensures !read(p, ev.headers).Bad?
  {
  }

  lemma {:induction false} FieldsSound(r: Rules, read: Reader, buf: Bytes, p: nat, ev: Event)
    requires ParseFields(read, buf, p, ev).Some? && |ev.headers| <= r.maxHeaders && ReadsOnlyFields(r, read, buf)
    ensures FoundSome(r, read, buf, p, ev)
    decreases |buf| - p
  {
    ParsedStarts(read, buf, p, ev);
    assert ReadsOnly(r, read, buf, p, ev.headers);
    if read(p, ev.headers).Empty? {
      FoundNone(r, read, buf, p, ev);
    } else {
      var f := FieldTaken(r, read, buf, p, ev.headers);
      var h, next := HeaderAt(buf, p, f), p + Width(f);
      var ev' := ev.(headers := ev.headers + [h]);
      ParsedGoesOn(read, buf, p, ev, h, next);
      FieldsSound(r, read, buf, next, ev');
      FoundOneMore(r, read, buf, p, ev, f, h, next, ev');
    }
  }

  lemma RequestLineSound(buf: Bytes) returns (verb: Bytes, uri: Bytes, version: Bytes)
    requires ReadRequestLine(buf).Some?
    ensures RequestPartsOk(verb, uri, version) && RequestLineStands(buf, verb, uri, version)
    ensures var u := |verb| + 1;
            var v := u + |uri| + 1;
            ReadRequestLine(buf)
            == Some((NEW_EVENT.(verb := View(0, |verb|), uri := View(u, u + |uri|)), v + |version| + 1))
  {
    var m := First(buf, 0, AtSpace);
    var u := First(buf, m + 1, AtUriEnd);
    var v := First(buf, u + 1, AtLineFeed);
    verb, uri, version := buf[0..m], buf[m + 1..u], buf[u + 1..v];
    FirstFinds(buf, 0, AtSpace);
    FirstFinds(buf, m + 1, AtUriEnd);
    FirstFinds(buf, u + 1, AtLineFeed);
    NoStopInSlice(buf, 0, AtSpace);
    NoStopInSlice(buf, m + 1, AtUriEnd);
    NoStopInSlice(buf, u + 1, AtLineFeed);
  }

  lemma BlankSound(buf: Bytes, b: nat) returns (blank: Bytes, rest: Bytes)
    requires b < |buf| && (buf[b] == CR || buf[b] == LF)
    ensures BlankOk(blank, rest) && b + |blank| + |rest| == |buf| && AfterBlank(buf, b) == b + |blank|
    ensures Stands(buf, b, blank) && Stands(buf, b + |blank|, rest)
  {
    var a := AfterBlank(buf, b);
    blank, rest := buf[b..a], buf[a..];
    assert buf[b..b + 1] == [buf[b]];
    if a == b + 2 {
      assert blank == [CR, LF];
    }
  }

  /** Every accepted buffer is a grammatical message written out part by part, and the views cover its
      parts exactly where they stand. */
  lemma ParsedIsWritten(r: Rules, buf: Bytes) returns (m: Message)
    requires Parse(r, buf).Some?
    ensures Grammatical(r, m) && Written(buf, m) && Parse(r, buf) == Some(Layout(buf, m))
  {
    forall q: nat, hs: seq<Header> ensures ReadsOnly(r, LineReader(r, buf), buf, q, hs) {
      LineReaderReadsOnly(r, buf, q, hs);
    }
    m := ParsedIsMessageWith(r, LineReader(r, buf), buf);
  }

  /** Soundness: every accepted buffer is the rendering of a grammatical message. */
  lemma ParsedIsMessage(r: Rules, buf: Bytes) returns (m: Message)
    requires Parse(r, buf).Some?
    ensures Grammatical(r, m) && buf == Render(m) && |buf| == Length(m) && Parse(r, buf) == Some(Layout(buf, m))
  {
    m := ParsedIsWritten(r, buf);
    WrittenIffRendered(buf, m);
  }

  lemma Assemble(r: Rules, buf: Bytes, m: Message, after: nat)
    requires RequestPartsOk(m.verb, m.uri, m.version) && RequestLineStands(buf, m.verb, m.uri, m.version)
    requires StandBeforeBlank(r, buf, FieldsOffset(m), [], m.fields, after) && BlankOk(m.blank, m.rest)
    requires Length(m) == |buf|
    requires Stands(buf, BlankOffset(m), m.blank) && Stands(buf, BlankOffset(m) + |m.blank|, m.rest)
    ensures Grammatical(r, m) && Written(buf, m)
  {
  }

  /** What follows the request line: fields, an empty line and the rest. */
  ghost predicate RestFound(
    r: Rules, read: Reader, buf: Bytes, p: nat, ev: Event, fields: seq<Field>, blank: Bytes, rest: Bytes, after: nat)
  {
    && Found(r, read, buf, p, ev, fields, after)
    && var b := p + Widths(fields);
       && BlankOk(blank, rest) && b + |blank| + |rest| == |buf| && after == b + |blank|
       && Stands(buf, b, blank) && Stands(buf, b + |blank|, rest)
  }

  lemma RestAfter(r: Rules, read: Reader, buf: Bytes, p: nat, ev: Event, fields: seq<Field>, after: nat)
    returns (blank: Bytes, rest: Bytes)
    requires Found(r, read, buf, p, ev, fields, after)
    ensures RestFound(r, read, buf, p, ev, fields, blank, rest, after)
  {
    blank, rest := BlankSound(buf, p + Widths(fields));
  }

  lemma RestSound(r: Rules, read: Reader, buf: Bytes, p: nat, ev: Event)
    returns (fields: seq<Field>, blank: Bytes, rest: Bytes, after: nat)
    requires ParseFields(read, buf, p, ev).Some? && ev.headers == [] && ReadsOnlyFields(r, read, buf)
    ensures RestFound(r, read, buf, p, ev, fields, blank, rest, after)
  {
    FieldsSound(r, read, buf, p, ev);
    fields, after :| Found(r, read, buf, p, ev, fields, after);
    blank, rest := RestAfter(r, read, buf, p, ev, fields, after);
  }

  lemma MessageFound(r: Rules, read: Reader, buf: Bytes, m: Message, ev: Event, p: nat, after: nat)
    requires RequestPartsOk(m.verb, m.uri, m.version) && RequestLineStands(buf, m.verb, m.uri, m.version)
    requires ReadRequestLine(buf) == Some((ev, p)) && ev == RequestLineEvent(m) && p == FieldsOffset(m)
    requires RestFound(r, read, buf, p, ev, m.fields, m.blank, m.rest, after)
    ensures Grammatical(r, m) && Written(buf, m) && ParseWith(read, buf) == Some(Layout(buf, m))
  {
    Assemble(r, buf, m, after);
    LayoutParsed(read, buf, m, ev, p, after);
  }

  lemma ParsedIsMessageWith(r: Rules, read: Reader, buf: Bytes) returns (m: Message)
    requires ParseWith(read, buf).Some? && ReadsOnlyFields(r, read, buf)
    ensures Grammatical(r, m) && Written(buf, m) && ParseWith(read, buf) == Some(Layout(buf, m))
  {
    var verb, uri, version := RequestLineSound(buf);
    var (ev, p) := ReadRequestLine(buf).value;
    var fields, blank, rest, after := RestSound(r, read, buf, p, ev);
    m := Message(verb, uri, version, fields, blank, rest);
    MessageFound(r, read, buf, m, ev, p, after);
  }

  lemma LayoutParsed(read: Reader, buf: Bytes, m: Message, ev: Event, p: nat, after: nat)
    requires Written(buf, m) && ReadRequestLine(buf) == Some((ev, p)) && ev == RequestLineEvent(m)
    requires p == FieldsOffset(m)
    requires after == BlankOffset(m) + |m.blank| && ParsedAs(read, buf, p, ev, m.fields, after)
    ensures ParseWith(read, buf) == Some(Layout(buf, m))
  {
    NothingRead(m, buf);
    ParseWithIs(read, buf, ev, p, Some(Layout(buf, m)));
  }

  lemma ParseWithIs(read: Reader, buf: Bytes, ev: Event, p: nat, result: Option<Event>)
    requires ReadRequestLine(buf) == Some((ev, p)) && ParseFields(read, buf, p, ev) == result
    ensures ParseWith(read, buf) == result
  {
  }
}
