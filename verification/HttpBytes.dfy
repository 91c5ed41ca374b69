/** What the parser accepts, spelled out in byte values. */
module HttpBytes {
  import opened ByteStrings
  import opened HttpGrammar
  import opened HttpSpec
  import opened HttpRoundTrip

  // ---------- the text of a message ----------

  /** The text is the parts with their separators: space 32, colon 58, line feed 10. */
  lemma RenderInBytes(m: Message)
    ensures Render(m) ==
            m.verb + [32] + m.uri + [32] + m.version + [10] + RenderFields(m.fields) + m.blank + m.rest
  {
  }

  /** Header lines follow one another: the last one of several is the last in the text. */
  lemma {:induction false} FieldsInBytes(fields: seq<Field>, f: Field)
    ensures RenderFields([]) == []
    ensures RenderFields(fields + [f]) == RenderFields(fields) + f.key + [58] + f.raw + [10]
    decreases fields
  {
    if fields == [] {
      assert fields + [f] == [f] && [f][1..] == [];
    } else {
      assert (fields + [f])[0] == fields[0] && (fields + [f])[1..] == fields[1..] + [f];
      FieldsInBytes(fields[1..], f);
      var line := RenderField(fields[0]);
      assert line + (RenderFields(fields[1..]) + f.key + [58] + f.raw + [10]) ==
             (line + RenderFields(fields[1..])) + f.key + [58] + f.raw + [10];
    }
  }

  /** The value of a header line: one final carriage return 13, then blanks, 32 and 9, at both ends, are left
      out, and nothing else. */
  lemma ValueInBytes(raw: Bytes) returns (core: Bytes, lo: nat, hi: nat)
    ensures core == if raw != [] && raw[|raw| - 1] == 13 then raw[..|raw| - 1] else raw
    ensures lo <= hi <= |core| && Value(raw) == core[lo..hi]
    ensures forall i :: 0 <= i < lo || hi <= i < |core| ==> core[i] == 32 || core[i] == 9
    ensures lo < hi ==> core[lo] != 32 && core[lo] != 9 && core[hi - 1] != 32 && core[hi - 1] != 9
  {
    var v, end := ValueView(raw, 0, |raw|), DropCr(raw, 0, |raw|);
    core, lo, hi := raw[..end], v.lo, v.hi;
    SkippedAreBlank(raw, 0, end);
    DroppedAreBlank(raw, SkipBlanks(raw, 0, end), end);
    forall i | 0 <= i < lo || hi <= i < |core| ensures core[i] == 32 || core[i] == 9 {
      assert core[i] == raw[i] && Blank(raw[i]);
    }
    assert raw[lo..hi] == core[lo..hi];
  }

  /** The body of what follows the empty line: leading 13s and 10s and one final 0 are left out, and nothing
      else. */
  lemma BodyInBytes(rest: Bytes) returns (lo: nat, hi: nat)
    ensures lo <= hi <= |rest| && Body(rest) == rest[lo..hi]
    ensures forall i :: 0 <= i < lo ==> rest[i] == 13 || rest[i] == 10
    ensures lo < |rest| ==> rest[lo] != 13 && rest[lo] != 10
    ensures hi == if lo < |rest| && rest[|rest| - 1] == 0 then |rest| - 1 else |rest|
  {
    lo := BodyStart(rest, 0);
    hi := if lo < |rest| && rest[|rest| - 1] == NUL then |rest| - 1 else |rest|;
    SkippedAreLineEnds(rest, 0);
    BodyStartPastLineEnds(rest, 0);
  }

  lemma {:induction false} SkippedAreLineEnds(rest: Bytes, p: nat)
    requires p <= |rest|
    ensures forall i :: p <= i < BodyStart(rest, p) ==> rest[i] == 13 || rest[i] == 10
    decreases |rest| - p
  {
    if p < |rest| && (rest[p] == CR || rest[p] == LF) {
      SkippedAreLineEnds(rest, p + 1);
    }
  }

  // ---------- letters ----------

  /** The same byte, or a capital letter and the small letter 32 above it. */
  predicate SameLetter(a: Byte, b: Byte) {
    a == b || (65 <= a <= 90 && b == a + 32) || (65 <= b <= 90 && a == b + 32)
  }

  lemma LowerInBytes(a: Byte, b: Byte)
    ensures Lower(a) == Lower(b) <==>
            a == b || (65 <= a <= 90 && b == a + 32) || (65 <= b <= 90 && a == b + 32)
  {
  }

  /** The same text in another casing. */
  ghost predicate Casing(a: Bytes, b: Bytes) { |a| == |b| && forall i :: 0 <= i < |a| ==> SameLetter(a[i], b[i]) }

  ghost predicate CasingAt(text: Bytes, i: nat, word: Bytes) {
    i + |word| <= |text| && forall k :: 0 <= k < |word| ==> SameLetter(text[i + k], word[k])
  }

  /** Somewhere in `text` stands a casing of `word`. */
  ghost predicate Mentions(text: Bytes, word: Bytes) { exists i: nat :: CasingAt(text, i, word) }

  lemma CasingIsEquality(a: Bytes, b: Bytes)
    ensures EqualIgnoringCase(a, b) <==> Casing(a, b)
  {
    if |a| == |b| {
      forall i | 0 <= i < |a| ensures Lower(a[i]) == Lower(b[i]) <==> SameLetter(a[i], b[i]) {
        LowerInBytes(a[i], b[i]);
      }
    }
  }

  lemma CasingThere(text: Bytes, i: nat, word: Bytes)
    ensures OccursAt(text, i, word) <==> CasingAt(text, i, word)
  {
    if i + |word| <= |text| {
      var part := text[i..i + |word|];
      CasingIsEquality(part, word);
      if CasingAt(text, i, word) {
        forall k | 0 <= k < |word| ensures SameLetter(part[k], word[k]) {
          assert part[k] == text[i + k];
        }
      }
      if Casing(part, word) {
        forall k | 0 <= k < |word| ensures SameLetter(text[i + k], word[k]) {
          assert part[k] == text[i + k];
        }
      }
    }
  }

  lemma MentionsIsContains(text: Bytes, word: Bytes)
    requires word != []
    ensures ContainsIgnoringCase(text, word) <==> Mentions(text, word)
  {
    forall i: nat ensures OccursAt(text, i, word) <==> CasingAt(text, i, word) {
      CasingThere(text, i, word);
    }
  }

  // ---------- the rules decide ----------

  /** The parts are where the parser looks for them: what delimits a part does not occur in it. */
  ghost predicate Formed(m: Message) {
    && m.verb != [] && 32 !in m.verb
    && m.uri != [] && 32 !in m.uri && 13 !in m.uri && 10 !in m.uri
    && m.version != [] && m.version != [13] && 10 !in m.version
    && (forall i :: 0 <= i < |m.fields| ==> FieldFormed(m.fields[i]))
    && (m.blank == [13, 10] || m.blank == [10] || (m.blank == [13] && (m.rest == [] || m.rest[0] != 10)))
  }

  predicate FieldFormed(f: Field) { 13 !in f.key && 10 !in f.key && 58 !in f.key && 10 !in f.raw }

  /** No rules at all, but for the number of headers. */
  ghost function Lax(n: nat): Rules {
    Rules(n, (k: Bytes) => true, (p: Bytes, k: Bytes) => true, (k: Bytes, v: Bytes) => true)
  }

  lemma FormedIsLax(m: Message, n: nat)
    requires Formed(m) && |m.fields| <= n
    ensures Grammatical(Lax(n), m)
  {
    forall i | 0 <= i < |m.fields| ensures FieldOk(Lax(n), m.fields[i]) {
      assert FieldFormed(m.fields[i]);
    }
  }

  lemma GrammaticalIsFormed(r: Rules, m: Message)
    requires Grammatical(r, m)
    ensures Formed(m)
  {
    forall i | 0 <= i < |m.fields| ensures FieldFormed(m.fields[i]) {
      assert FieldOk(r, m.fields[i]);
    }
  }

  /** The same keys and the same values. */
  ghost predicate SameFields(a: seq<Field>, b: seq<Field>) {
    |a| == |b| && forall i :: 0 <= i < |a| ==> a[i].key == b[i].key && Value(a[i].raw) == Value(b[i].raw)
  }

  /** A text is formed in one way only, as far as keys and values go. */
  lemma FormedOneWay(buf: Bytes, m: Message, m': Message)
    requires Formed(m) && Formed(m') && buf == Render(m) == Render(m')
    ensures SameFields(m.fields, m'.fields)
  {
    var n := |m.fields| + |m'.fields|;
    FormedIsLax(m, n);
    FormedIsLax(m', n);
    ParsedReadsAsMessage(Lax(n), buf, m);
    ParsedReadsAsMessage(Lax(n), buf, m');
    var hs := Parse(Lax(n), buf).value.headers;
    forall i | 0 <= i < |m.fields|
      ensures m.fields[i].key == m'.fields[i].key && Value(m.fields[i].raw) == Value(m'.fields[i].raw)
    {
      assert HeaderReads(buf, hs[i], m.fields[i]) && HeaderReads(buf, hs[i], m'.fields[i]);
    }
  }

  lemma SameFieldsOk(r: Rules, a: seq<Field>, b: seq<Field>)
    requires SameFields(a, b) && FieldsOk(r, a) && forall i :: 0 <= i < |b| ==> FieldFormed(b[i])
    ensures FieldsOk(r, b)
  {
    forall i | 0 <= i < |b| ensures FieldOk(r, b[i]) {
      assert FieldOk(r, a[i]) && FieldFormed(b[i]);
    }
  }

  /** Whatever the rules, the text of a formed message is accepted if and only if its fields obey them. */
  lemma RulesDecide(r: Rules, m: Message)
    requires Formed(m)
    ensures Parse(r, Render(m)).Some? <==> FieldsOk(r, m.fields)
  {
    if Parse(r, Render(m)).Some? {
      var m' := ParsedIsMessage(r, Render(m));
      GrammaticalIsFormed(r, m');
      FormedOneWay(Render(m), m', m);
      SameFieldsOk(r, m'.fields, m.fields);
    }
    if FieldsOk(r, m.fields) {
      assert Grammatical(r, m);
      MessageParsed(r, Render(m), m);
    }
  }

  // ---------- the parser's rules ----------

  /** The words the parser looks for: `Host`, `injected`, `Transfer-Encoding` and `chunked`. */
  const HOST: Bytes := [72, 111, 115, 116]
  const INJECTED: Bytes := [105, 110, 106, 101, 99, 116, 101, 100]
  const TRANSFER_ENCODING: Bytes :=
    [84, 114, 97, 110, 115, 102, 101, 114, 45, 69, 110, 99, 111, 100, 105, 110, 103]
  const CHUNKED: Bytes := [99, 104, 117, 110, 107, 101, 100]

  lemma WordsInBytes()
    ensures Ascii("Host") == HOST && Ascii("injected") == INJECTED
    ensures Ascii("Transfer-Encoding") == TRANSFER_ENCODING && Ascii("chunked") == CHUNKED
  {
  }

  /** A header line the parser takes: a key of 1 to 64 visible bytes, and a value without carriage return that
      does not announce a chunked body in any casing. */
  ghost predicate FieldAcceptable(f: Field) {
    && 1 <= |f.key| <= 64 && (forall i :: 0 <= i < |f.key| ==> 33 <= f.key[i] <= 126)
    && 13 !in Value(f.raw)
    && !(Casing(f.key, TRANSFER_ENCODING) && Mentions(Value(f.raw), CHUNKED))
  }

  lemma FieldOkInBytes(f: Field)
    requires FieldFormed(f)
    ensures FieldOk(ParserRules(), f) <==> FieldAcceptable(f)
  {
    WordsInBytes();
    CasingIsEquality(f.key, TRANSFER_ENCODING);
    MentionsIsContains(Value(f.raw), CHUNKED);
  }

  /** The text of a formed message is accepted if and only if it has at most 16 header lines, each acceptable,
      and no `injected` right after a `Host`. */
  lemma AcceptedInBytes(m: Message)
    requires Formed(m)
    ensures Parse(ParserRules(), Render(m)).Some? <==>
            && |m.fields| <= 16
            && (forall i :: 0 <= i < |m.fields| ==> FieldAcceptable(m.fields[i]))
            && (forall i :: 0 < i < |m.fields| ==> !(m.fields[i - 1].key == HOST && m.fields[i].key == INJECTED))
  {
    RulesDecide(ParserRules(), m);
    WordsInBytes();
    forall i | 0 <= i < |m.fields| ensures FieldOk(ParserRules(), m.fields[i]) <==> FieldAcceptable(m.fields[i]) {
      FieldOkInBytes(m.fields[i]);
    }
  }

  /** In particular no casing of a chunked transfer encoding gets through, however the rest looks. */
  lemma ChunkedIsRejected(m: Message, i: nat)
    requires Formed(m) && i < |m.fields|
    requires Casing(m.fields[i].key, TRANSFER_ENCODING) && Mentions(Value(m.fields[i].raw), CHUNKED)
    ensures Parse(ParserRules(), Render(m)).None?
  {
    AcceptedInBytes(m);
    assert !FieldAcceptable(m.fields[i]);
  }
}
