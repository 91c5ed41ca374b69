/** `http_parser::parse`: one pass over the buffer, one state, views into it. */
module HttpParser {
  import opened Options
  import opened ByteStrings
  import opened HttpGrammar
  import opened HttpSpec

  datatype State = InMethod | InUri | InVersion | InKey | InValue | InBody

  // ---------- the inner loops ----------

  /** `ieq` */
  method EqualsIgnoringCase(a: Bytes, b: Bytes) returns (same: bool)
    ensures same <==> EqualIgnoringCase(a, b)
  {
    if |a| != |b| {
      return false;
    }
    for i := 0 to |a|
      invariant forall k :: 0 <= k < i ==> Lower(a[k]) == Lower(b[k])
    {
      if Lower(a[i]) != Lower(b[i]) {
        return false;
      }
    }
    return true;
  }

  /** `icontains` */
  method ContainsWord(hay: Bytes, needle: Bytes) returns (found: bool)
    ensures found <==> ContainsIgnoringCase(hay, needle)
  {
    if needle == [] || |hay| < |needle| {
      return false;
    }
    var i := 0;
    while i + |needle| <= |hay|
      invariant i <= |hay| && forall k: nat :: k < i ==> !OccursAt(hay, k, needle)
    {
      var same := EqualsIgnoringCase(hay[i..i + |needle|], needle);
      if same {
        assert OccursAt(hay, i, needle);
        return true;
      }
      i := i + 1;
    }
    return false;
  }

  /** Drops a final CR, then blanks at both ends. */
  method Trim(buf: Bytes, lo: nat, hi: nat) returns (v: View)
    requires lo <= hi <= |buf|
    ensures v == ValueView(buf, lo, hi)
  {
    var begin, end := lo, hi;
    if end > begin && buf[end - 1] == CR {
      end := end - 1;
    }
    while begin < end && (buf[begin] == SP || buf[begin] == TAB)
      invariant lo <= begin <= end && SkipBlanks(buf, begin, end) == SkipBlanks(buf, lo, end)
    {
      begin := begin + 1;
    }
    ghost var stop := end;
    while end > begin && (buf[end - 1] == SP || buf[end - 1] == TAB)
      invariant begin <= end <= stop && DropBlanks(buf, begin, end) == DropBlanks(buf, begin, stop)
    {
      end := end - 1;
    }
    return View(begin, end);
  }

  /** Whether a value holds a stray line end. */
  method HasLineEnd(s: Bytes) returns (found: bool)
    ensures found <==> CR in s || LF in s
  {
    for k := 0 to |s|
      invariant CR !in s[..k] && LF !in s[..k]
    {
      if s[k] == CR || s[k] == LF {
        return true;
      }
    }
    assert s[..|s|] == s;
    return false;
  }

  /** Whether `[lo, hi)` holds only visible ASCII. */
  method AllVisible(buf: Bytes, lo: nat, hi: nat) returns (ok: bool)
    requires lo <= hi <= |buf|
    ensures ok <==> forall k :: lo <= k < hi ==> 0x20 < buf[k] < 0x7f
  {
    for k := lo to hi
      invariant forall j :: lo <= j < k ==> 0x20 < buf[j] < 0x7f
    {
      if buf[k] <= 0x20 || buf[k] >= 0x7f || buf[k] == SP {
        return false;
      }
    }
    return true;
  }

  // ---------- one key, one value ----------

  ghost predicate NoStop(buf: Bytes, lo: nat, hi: nat, s: Stop)
    requires lo <= hi <= |buf|
  {
    forall k :: lo <= k < hi ==> !Stops(s, buf[k])
  }

  lemma KeyInWords(buf: Bytes, p: nat, i: nat)
    requires p <= i <= |buf| && NoStop(buf, p, i, AtKeyEnd)
    ensures KeyOk(ParserRules(), buf[p..i]) <==> 1 <= i - p <= 64 && forall k :: p <= k < i ==> 0x20 < buf[k] < 0x7f
  {
    var key := buf[p..i];
    if KeyOk(ParserRules(), key) {
      forall k | p <= k < i ensures 0x20 < buf[k] < 0x7f {
        assert key[k - p] == buf[k];
      }
    }
  }

  /** The checks at a colon. */
  method CheckKey(buf: Bytes, p: nat, i: nat, headers: seq<Header>) returns (ok: bool)
    requires p <= i < |buf| && NoStop(buf, p, i, AtKeyEnd)
    ensures ok <==> KeyAccepted(ParserRules(), buf, p, i, headers)
  {
    KeyInWords(buf, p, i);
    if |headers| >= 16 || i == p {
      return false;
    }
    if |headers| > 0 {
      var previous, this_ := LastKey(buf, headers), buf[p..i];
      if previous == Ascii("Host") && this_ == Ascii("injected") {
        return false;
      }
    }
    if i - p > 64 {
      return false;
    }
    ok := AllVisible(buf, p, i);
  }

  /** The checks at the end of a header line. */
  method CheckValue(key: Bytes, value: Bytes) returns (ok: bool)
    requires LF !in value
    ensures ok <==> ValueOk(key, value)
  {
    var stray := HasLineEnd(value);
    if stray {
      return false;
    }
    var encoding := EqualsIgnoringCase(key, Ascii("Transfer-Encoding"));
    if encoding {
      var chunked := ContainsWord(value, Ascii("chunked"));
      if chunked {
        return false;
      }
    }
    return true;
  }

  // ---------- what the state stands for ----------

  /** What is still to be parsed once a key has been accepted and its value begins at `p`. */
  ghost function Resume(line: Line, read: Reader, buf: Bytes, ev: Event): Option<Event> {
    match line
    case Bad => None
    case Empty => None
    case HeaderLine(h, next) =>
      if next <= |buf| then ParseFields(read, buf, next, ev.(headers := ev.headers + [h])) else None
  }

  /** The state, with the start of the current token, the event so far and the current key, determines
      the result of the whole parse; nothing between the token's start and `i` ends the token. */
  ghost predicate Tracks(buf: Bytes, parsed: Option<Event>, st: State, start: nat, i: nat, ev: Event, key: View) {
    var r := ParserRules();
    && start <= i <= |buf|
    && match st
       case InMethod => start == 0 && ev == NEW_EVENT && NoStop(buf, start, i, AtSpace) && parsed == Parse(r, buf)
       case InUri =>
         NoStop(buf, start, i, AtUriEnd) && ReadRequestLine(buf) == ReadUri(buf, start, ev) && parsed == Parse(r, buf)
       case InVersion =>
         && NoStop(buf, start, i, AtLineFeed) && ReadRequestLine(buf) == ReadVersion(buf, start, ev)
         && parsed == Parse(r, buf)
       case InKey => NoStop(buf, start, i, AtKeyEnd) && parsed == ParseFields(LineReader(r, buf), buf, start, ev)
       case InValue =>
         && NoStop(buf, start, i, AtLineFeed) && key.View? && key.lo <= key.hi <= |buf|
         && parsed == Resume(Values(r, buf)(key, start), LineReader(r, buf), buf, ev)
       case InBody => i == start && parsed == Some(ev.(body := BodyAt(buf, start)))
  }

  ghost predicate Rejected(parsed: Option<Event>) { parsed.None? }

  /** After a token: the buffer is rejected, or the new state determines the result. */
  ghost predicate Goes(buf: Bytes, parsed: Option<Event>, ok: bool, st: State, start: nat, i: nat, ev: Event,
                       key: View) {
    if ok then Tracks(buf, parsed, st, start, i, ev, key) else Rejected(parsed)
  }

  lemma StopAt(buf: Bytes, start: nat, i: nat, s: Stop)
    requires start <= i <= |buf| && NoStop(buf, start, i, s) && (i < |buf| ==> Stops(s, buf[i]))
    ensures First(buf, start, s) == i
  {
    FirstIs(buf, start, s, i);
  }

  lemma NoRequestLine(buf: Bytes)
    requires ReadRequestLine(buf) == None
    ensures Parse(ParserRules(), buf) == None
  {
  }

  lemma RequestLineDone(r: Rules, buf: Bytes, ev: Event, p: nat)
    requires ReadRequestLine(buf) == Some((ev, p))
    ensures Parse(r, buf) == ParseFields(LineReader(r, buf), buf, p, ev)
  {
  }

  lemma MethodEnds(buf: Bytes, parsed: Option<Event>, i: nat, key: View)
    requires Tracks(buf, parsed, InMethod, 0, i, NEW_EVENT, key) && (i < |buf| ==> buf[i] == SP)
    ensures i == |buf| || i == 0 ==> Rejected(parsed)
    ensures 0 < i < |buf| ==> Tracks(buf, parsed, InUri, i + 1, i + 1, NEW_EVENT.(verb := View(0, i)), key)
  {
    StopAt(buf, 0, i, AtSpace);
    if i == |buf| || i == 0 {
      NoRequestLine(buf);
    }
  }

  lemma UriEnds(buf: Bytes, parsed: Option<Event>, start: nat, i: nat, ev: Event, key: View)
    requires Tracks(buf, parsed, InUri, start, i, ev, key) && (i < |buf| ==> Stops(AtUriEnd, buf[i]))
    ensures i == |buf| || buf[i] != SP || i == start ==> Rejected(parsed)
    ensures i < |buf| && buf[i] == SP && i != start ==>
              Tracks(buf, parsed, InVersion, i + 1, i + 1, ev.(uri := View(start, i)), key)
  {
    StopAt(buf, start, i, AtUriEnd);
    if i == |buf| || buf[i] != SP || i == start {
      NoRequestLine(buf);
    }
  }

  lemma VersionEnds(buf: Bytes, parsed: Option<Event>, start: nat, i: nat, ev: Event, key: View)
    requires Tracks(buf, parsed, InVersion, start, i, ev, key) && (i < |buf| ==> buf[i] == LF)
    ensures i == |buf| || i == start || (i == start + 1 && buf[start] == CR) ==> Rejected(parsed)
    ensures i < |buf| && i != start && !(i == start + 1 && buf[start] == CR) ==>
              Tracks(buf, parsed, InKey, i + 1, i + 1, ev, key)
  {
    StopAt(buf, start, i, AtLineFeed);
    if i == |buf| || i == start || (i == start + 1 && buf[start] == CR) {
      NoRequestLine(buf);
    } else {
      RequestLineDone(ParserRules(), buf, ev, i + 1);
    }
  }

  lemma LineRead(r: Rules, buf: Bytes, start: nat, ev: Event, line: Line)
    requires start <= |buf| && ReadLine(r, Values(r, buf), buf, start, ev.headers) == line
    ensures LineReader(r, buf)(start, ev.headers) == line
    ensures line.Bad? ==> ParseFields(LineReader(r, buf), buf, start, ev) == None
    ensures line.Empty? && start < |buf| ==>
              ParseFields(LineReader(r, buf), buf, start, ev) == Some(ev.(body := BodyAt(buf, AfterBlank(buf, start))))
  {
    ReadByLineReader(r, buf, start, ev.headers, line);
  }

  /** A line that ends before any colon: the empty line, or an error. */
  lemma KeyEndsLine(buf: Bytes, parsed: Option<Event>, start: nat, i: nat, ev: Event, key: View)
    requires Tracks(buf, parsed, InKey, start, i, ev, key) && (i < |buf| ==> buf[i] == CR || buf[i] == LF)
    ensures i == |buf| || i != start ==> Rejected(parsed)
    ensures i < |buf| && i == start ==> Tracks(buf, parsed, InBody, AfterBlank(buf, i), AfterBlank(buf, i), ev, key)
  {
    var r := ParserRules();
    StopAt(buf, start, i, AtKeyEnd);
    LineRead(r, buf, start, ev, if i < |buf| && i == start then Empty else Bad);
  }

  lemma ValueLine(r: Rules, buf: Bytes, key: View, p: nat)
    ensures !Values(r, buf)(key, p).Empty?
    ensures Values(r, buf)(key, p).HeaderLine? ==> p < Values(r, buf)(key, p).next <= |buf|
  {
  }

  lemma ResumeIsParse(read: Reader, buf: Bytes, start: nat, ev: Event, line: Line)
    requires read(start, ev.headers) == line && !line.Empty? && (line.HeaderLine? ==> start < line.next <= |buf|)
    ensures ParseFields(read, buf, start, ev) == Resume(line, read, buf, ev)
  {
  }

  lemma KeyRefused(r: Rules, buf: Bytes, parsed: Option<Event>, start: nat, i: nat, ev: Event)
    requires start <= i < |buf| && First(buf, start, AtKeyEnd) == i && buf[i] == COLON
    requires parsed == ParseFields(LineReader(r, buf), buf, start, ev) && !KeyAccepted(r, buf, start, i, ev.headers)
    ensures parsed.None?
  {
    LineRead(r, buf, start, ev, Bad);
  }

  lemma KeyLine(r: Rules, values: ValueReader, buf: Bytes, start: nat, i: nat, headers: seq<Header>)
    requires start <= i < |buf| && First(buf, start, AtKeyEnd) == i && buf[i] == COLON
    requires KeyAccepted(r, buf, start, i, headers)
    ensures ReadLine(r, values, buf, start, headers) == values(View(start, i), i + 1)
  {
  }

  lemma KeyTaken(r: Rules, read: Reader, buf: Bytes, start: nat, i: nat, ev: Event, line: Line)
    requires start <= i < |buf| && First(buf, start, AtKeyEnd) == i && buf[i] == COLON
    requires read == LineReader(r, buf) && line == Values(r, buf)(View(start, i), i + 1)
    requires KeyAccepted(r, buf, start, i, ev.headers)
    ensures ParseFields(read, buf, start, ev) == Resume(line, read, buf, ev)
  {
    ValueLine(r, buf, View(start, i), i + 1);
    KeyLine(r, Values(r, buf), buf, start, i, ev.headers);
    ReadByLineReader(r, buf, start, ev.headers, line);
    ResumeIsParse(read, buf, start, ev, line);
  }

  lemma KeyEnds(buf: Bytes, parsed: Option<Event>, start: nat, i: nat, ev: Event, key: View)
    requires Tracks(buf, parsed, InKey, start, i, ev, key) && i < |buf| && buf[i] == COLON
    ensures Goes(buf, parsed, KeyAccepted(ParserRules(), buf, start, i, ev.headers), InValue, i + 1, i + 1, ev,
                 View(start, i))
  {
    var r := ParserRules();
    StopAt(buf, start, i, AtKeyEnd);
    if KeyAccepted(r, buf, start, i, ev.headers) {
      KeyTaken(r, LineReader(r, buf), buf, start, i, ev, Values(r, buf)(View(start, i), i + 1));
    } else {
      KeyRefused(r, buf, parsed, start, i, ev);
    }
  }

  lemma ValueIs(r: Rules, buf: Bytes, key: View, start: nat, i: nat)
    requires start <= i <= |buf| && key.View? && key.lo <= key.hi <= |buf| && First(buf, start, AtLineFeed) == i
    ensures i == |buf| ==> Values(r, buf)(key, start) == Bad
    ensures i < |buf| ==>
              Values(r, buf)(key, start) ==
              if r.value(Text(buf, key), Text(buf, ValueView(buf, start, i))) then
                HeaderLine(Header(key, ValueView(buf, start, i)), i + 1)
              else Bad
  {
  }

  /** The value reader's answer once the line feed is found. */
  lemma ValueAnswer(buf: Bytes, start: nat, i: nat, key: View, v: View, ok: bool)
    requires start <= i < |buf| && NoStop(buf, start, i, AtLineFeed) && buf[i] == LF
    requires key.View? && key.lo <= key.hi <= |buf|
    requires v == ValueView(buf, start, i) && ok == ValueOk(Text(buf, key), Text(buf, v))
    ensures Values(ParserRules(), buf)(key, start) == if ok then HeaderLine(Header(key, v), i + 1) else Bad
  {
    StopAt(buf, start, i, AtLineFeed);
    ValueIs(ParserRules(), buf, key, start, i);
    ValueRule(Text(buf, key), Text(buf, v));
  }

  lemma ValueEnds(buf: Bytes, parsed: Option<Event>, start: nat, i: nat, ev: Event, key: View, v: View, ok: bool)
    requires Tracks(buf, parsed, InValue, start, i, ev, key) && i < |buf| && buf[i] == LF
    requires v == ValueView(buf, start, i) && ok == ValueOk(Text(buf, key), Text(buf, v))
    ensures Goes(buf, parsed, ok, InKey, i + 1, i + 1, ev.(headers := ev.headers + [Header(key, v)]), key)
  {
    ValueAnswer(buf, start, i, key, v, ok);
  }

  lemma ValueUnended(buf: Bytes, parsed: Option<Event>, start: nat, ev: Event, key: View)
    requires Tracks(buf, parsed, InValue, start, |buf|, ev, key)
    ensures Rejected(parsed)
  {
    StopAt(buf, start, |buf|, AtLineFeed);
    ValueIs(ParserRules(), buf, key, start, |buf|);
  }

  lemma ValueRule(key: Bytes, value: Bytes)
    ensures ParserRules().value(key, value) == ValueOk(key, value)
  {
  }

  /** The value up to the line feed at `i` holds no line feed. */
  lemma NoLineFeedIn(buf: Bytes, start: nat, i: nat, v: View)
    requires start <= i <= |buf| && NoStop(buf, start, i, AtLineFeed) && v.View? && start <= v.lo <= v.hi <= i
    ensures LF !in Text(buf, v)
  {
  }

  function StopOf(st: State): Stop {
    match st
    case InMethod => AtSpace
    case InUri => AtUriEnd
    case InVersion => AtLineFeed
    case InKey => AtKeyEnd
    case InValue => AtLineFeed
    case InBody => AtSpace
  }

  /** A byte that does not end the current token leaves the state as it is. */
  lemma Advance(buf: Bytes, parsed: Option<Event>, st: State, start: nat, i: nat, ev: Event, key: View)
    requires Tracks(buf, parsed, st, start, i, ev, key) && !st.InBody? && i < |buf| && !Stops(StopOf(st), buf[i])
    ensures Tracks(buf, parsed, st, start, i + 1, ev, key)
  {
  }

  /** Running out of bytes is an error everywhere but before the body. */
  lemma OutOfBytes(buf: Bytes, parsed: Option<Event>, st: State, start: nat, ev: Event, key: View)
    requires Tracks(buf, parsed, st, start, |buf|, ev, key)
    ensures if st.InBody? then parsed == Some(ev.(body := NoView)) else Rejected(parsed)
  {
    match st
    case InMethod => MethodEnds(buf, parsed, |buf|, key);
    case InUri => UriEnds(buf, parsed, start, |buf|, ev, key);
    case InVersion => VersionEnds(buf, parsed, start, |buf|, ev, key);
    case InKey => KeyEndsLine(buf, parsed, start, |buf|, ev, key);
    case InValue => ValueUnended(buf, parsed, start, ev, key);
    case InBody =>
  }

  /** The body from `start` on: leading line ends and one final NUL do not belong to it. */
  method TakeBody(buf: Bytes, start: nat) returns (body: View)
    requires start < |buf|
    ensures body == BodyAt(buf, start)
  {
    var begin := start;
    while begin < |buf| && (buf[begin] == CR || buf[begin] == LF)
      invariant start <= begin <= |buf| && BodyStart(buf, begin) == BodyStart(buf, start)
    {
      begin := begin + 1;
    }
    var len := |buf| - begin;
    if len > 0 && buf[begin + len - 1] == NUL {
      len := len - 1;
    }
    return View(begin, begin + len);
  }

  /** The end of a part of the request line. */
  method RequestTokenEnds(buf: Bytes, ghost parsed: Option<Event>, st: State, start: nat, i: nat, ev: Event, key: View)
    returns (ok: bool, st': State, ev': Event)
    requires Tracks(buf, parsed, st, start, i, ev, key) && i < |buf| && (st.InMethod? || st.InUri? || st.InVersion?)
    requires Stops(StopOf(st), buf[i])
    ensures Goes(buf, parsed, ok, st', i + 1, i + 1, ev', key) && !st'.InValue?
  {
    st', ev' := st, ev;
    match st
    case InMethod =>
      MethodEnds(buf, parsed, i, key);
      ok := i != start;
      st', ev' := InUri, ev.(verb := View(start, i));
    case InUri =>
      UriEnds(buf, parsed, start, i, ev, key);
      ok := buf[i] == SP && i != start;
      st', ev' := InVersion, ev.(uri := View(start, i));
    case InVersion =>
      VersionEnds(buf, parsed, start, i, ev, key);
      ok := !(i == start || (i == start + 1 && buf[start] == CR));
      st' := InKey;
  }

  /** The end of a key: a colon, or the end of the line. */
  method KeyTokenEnds(buf: Bytes, ghost parsed: Option<Event>, start: nat, i: nat, ev: Event, key: View, sawColon: bool)
    returns (ok: bool, st': State, start': nat, i': nat, key': View)
    requires Tracks(buf, parsed, InKey, start, i, ev, key) && i < |buf| && Stops(AtKeyEnd, buf[i]) && !sawColon
    ensures i <= i' && Goes(buf, parsed, ok, st', start', i' + 1, ev, key') && (st'.InValue? || st'.InBody?)
  {
    ok, st', start', i', key' := true, InBody, i + 1, i, key;
    if buf[i] == COLON {
      KeyEnds(buf, parsed, start, i, ev, key);
      ok := CheckKey(buf, start, i, ev.headers);
      st', key' := InValue, View(start, i);
    } else {
      KeyEndsLine(buf, parsed, start, i, ev, key);
      if i != start {
        ok := sawColon;
      } else if buf[i] == CR && i + 1 < |buf| && buf[i + 1] == LF {
        start', i' := i + 2, i + 1;
      }
    }
  }

  /** The end of a header line. */
  method ValueTokenEnds(buf: Bytes, ghost parsed: Option<Event>, start: nat, i: nat, ev: Event, key: View)
    returns (ok: bool, ev': Event)
    requires Tracks(buf, parsed, InValue, start, i, ev, key) && i < |buf| && buf[i] == LF
    ensures Goes(buf, parsed, ok, InKey, i + 1, i + 1, ev', key)
  {
    var v := Trim(buf, start, i);
    NoLineFeedIn(buf, start, i, v);
    ok := CheckValue(Text(buf, key), Text(buf, v));
    ValueEnds(buf, parsed, start, i, ev, key, v, ok);
    ev' := ev.(headers := ev.headers + [Header(key, v)]);
  }

  /** A byte that ends the current token. */
  method TokenEnds(buf: Bytes, ghost parsed: Option<Event>, st: State, start: nat, i: nat, ev: Event, key: View,
                   sawColon: bool)
    returns (ok: bool, st': State, start': nat, i': nat, ev': Event, key': View)
    requires Tracks(buf, parsed, st, start, i, ev, key) && i < |buf| && !st.InBody? && (sawColon <==> st.InValue?)
    requires Stops(StopOf(st), buf[i])
    ensures i <= i' && Goes(buf, parsed, ok, st', start', i' + 1, ev', key')
  {
    start', i', ev', key' := i + 1, i, ev, key;
    match st
    case InKey =>
      ok, st', start', i', key' := KeyTokenEnds(buf, parsed, start, i, ev, key, sawColon);
    case InValue =>
      st' := InKey;
      ok, ev' := ValueTokenEnds(buf, parsed, start, i, ev, key);
    case _ =>
      ok, st', ev' := RequestTokenEnds(buf, parsed, st, start, i, ev, key);
  }

  /** One byte before the body. */
  method Consume(buf: Bytes, ghost parsed: Option<Event>, st: State, start: nat, i: nat, ev: Event, key: View,
                 sawColon: bool)
    returns (ok: bool, st': State, start': nat, i': nat, ev': Event, key': View)
    requires Tracks(buf, parsed, st, start, i, ev, key) && i < |buf| && !st.InBody? && (sawColon <==> st.InValue?)
    ensures i < i' && Goes(buf, parsed, ok, st', start', i', ev', key')
  {
    if !Stops(StopOf(st), buf[i]) {
      Advance(buf, parsed, st, start, i, ev, key);
      ok, st', start', i', ev', key' := true, st, start, i + 1, ev, key;
    } else {
      ok, st', start', i', ev', key' := TokenEnds(buf, parsed, st, start, i, ev, key, sawColon);
      i' := i' + 1;
    }
  }

  /** The loop: the state determines the result of the whole parse from the first byte to the last. */
  method ParseLoop(buf: Bytes, ghost parsed: Option<Event>) returns (ok: bool, ev: Event)
    requires Tracks(buf, parsed, InMethod, 0, 0, NEW_EVENT, NoView)
    ensures ok <==> parsed.Some?
    ensures ok ==> parsed == Some(ev)
  {
    var st: State, start: nat, sawColon: bool, key: View, i: nat := InMethod, 0, false, NoView, 0;
    ok, ev := true, NEW_EVENT;
    while i < |buf| && !st.InBody?
      invariant ok && Tracks(buf, parsed, st, start, i, ev, key)
      invariant sawColon <==> st.InValue?
    {
      ok, st, start, i, ev, key := Consume(buf, parsed, st, start, i, ev, key, sawColon);
      sawColon := st.InValue?;
      if !ok {
        return;
      }
    }
    if i < |buf| {
      var body := TakeBody(buf, start);
      ev := ev.(body := body);
    } else {
      OutOfBytes(buf, parsed, st, start, ev, key);
      ok := st.InBody?;
      ev := ev.(body := NoView);
    }
  }

  /** `parse`: accepts exactly what the specification accepts, with the same views. */
  method ParseRequest(buf: Bytes) returns (ok: bool, ev: Event)
    ensures ok <==> Parse(ParserRules(), buf).Some?
    ensures ok ==> Parse(ParserRules(), buf) == Some(ev)
  {
    ok, ev := ParseLoop(buf, Parse(ParserRules(), buf));
  }
}
