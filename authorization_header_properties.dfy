/**
  Properties that relate several operations of the header codec: what the scan
  finds in a header `Generate` wrote, the round trip through `Parse`, which
  attributes make `Parse` fail, and that the last duplicate of a key wins.
 */
module AuthorizationHeaderProperties {
  import opened Wrappers
  import opened AuthorizationHeader

  // ---------------------------------------------------------------------------
  // Scanning text that holds no match
  // ---------------------------------------------------------------------------

  /** Positions where no match starts are stepped over one character at a time. */
  lemma {:induction false} SkipUnmatched(p: string, t: string)
    requires forall i | 0 <= i < |p| :: MatchAt(p[i..] + t) == None
    ensures Scan(p + t) == Scan(t)
  {
    if p != [] {
      assert p[0..] == p;
      ScanUnmatched(p, t);
      forall i | 0 <= i < |p[1..]|
        ensures MatchAt(p[1..][i..] + t) == None
      {
        assert p[1..][i..] == p[i + 1..];
      }
      SkipUnmatched(p[1..], t);
    } else {
      assert p + t == t;
    }
  }

  /** No key name begins with c. */
  predicate NotKeyInitial(c: char) {
    c != 'i' && c != 't' && c != 'n' && c != 'e' && c != 'm'
  }

  /** The first two letters of some key name. */
  predicate IsKeyPair(a: char, b: char) {
    (a, b) in {('i', 'd'), ('t', 's'), ('n', 'o'), ('e', 'x'), ('m', 'a')}
  }

  /** Position i of p cannot start a key name, whatever follows p. */
  predicate NoKeyStartsAt(p: string, i: int)
    requires 0 <= i < |p|
  {
    NotKeyInitial(p[i]) || (i + 1 < |p| && !IsKeyPair(p[i], p[i + 1]))
  }

  lemma KeyNameStart(k: Key, s: string)
    requires KeyName(k) <= s
    ensures |s| >= 2 && !NotKeyInitial(s[0]) && IsKeyPair(s[0], s[1])
  {
    assert s[0] == KeyName(k)[0] && s[1] == KeyName(k)[1];
  }

  lemma NoMatchWithoutKey(p: string, t: string)
    requires p != [] && NoKeyStartsAt(p, 0)
    ensures MatchAt(p + t) == None
  {
    var s := p + t;
    assert s[0] == p[0];
    assert |p| >= 2 ==> s[1] == p[1];
    forall k: Key ensures !(KeyName(k) <= s) {
      if KeyName(k) <= s {
        KeyNameStart(k, s);
      }
    }
  }

  /** Text in which no key name can start adds nothing to the scan. */
  lemma SkipNoKey(p: string, t: string)
    requires forall i | 0 <= i < |p| :: NoKeyStartsAt(p, i)
    ensures Scan(p + t) == Scan(t)
  {
    forall i | 0 <= i < |p|
      ensures MatchAt(p[i..] + t) == None
    {
      assert NoKeyStartsAt(p[i..], 0) by {
        assert NoKeyStartsAt(p, i);
        assert p[i..][0] == p[i];
        assert i + 1 < |p| ==> p[i..][1] == p[i + 1];
      }
      NoMatchWithoutKey(p[i..], t);
    }
    SkipUnmatched(p, t);
  }

  /** Text made of characters no key starts with adds nothing to the scan. */
  lemma SkipPunctuation(p: string, t: string)
    requires forall i | 0 <= i < |p| :: NotKeyInitial(p[i])
    ensures Scan(p + t) == Scan(t)
  {
    SkipNoKey(p, t);
  }

  /** The text of key="" after its first letter: no key name starts anywhere in it. */
  lemma EmptySegmentTail(k: Key)
    ensures forall i | 0 <= i < |Segment((k, ""))[1..]| :: NoKeyStartsAt(Segment((k, ""))[1..], i)
  {
    match k
    case Id => assert Segment((k, ""))[1..] == "d=\"\"";
    case Ts => assert Segment((k, ""))[1..] == "s=\"\"";
    case Nonce => assert Segment((k, ""))[1..] == "once=\"\"";
    case Ext => assert Segment((k, ""))[1..] == "xt=\"\"";
    case Mac => assert Segment((k, ""))[1..] == "ac=\"\"";
  }

  /** An empty value between the quotes is not captured. */
  lemma CaptureAfterEmpty(t: string)
    ensures CaptureAfter("=\"\"" + t) == None
  {
    var rest := "=\"\"" + t;
    assert rest[2..][0] == '"';
  }

  lemma EmptySegmentNoMatch(k: Key, t: string)
    ensures MatchAt(Segment((k, "")) + t) == None
  {
    var s := Segment((k, "")) + t;
    assert s == KeyName(k) + ("=\"\"" + t);
    KeyAtOf(k, s);
    assert s[|KeyName(k)|..] == "=\"\"" + t;
    CaptureAfterEmpty(t);
  }

  /** key="" is not a match (the value needs one character), and nothing inside it is. */
  lemma EmptySegmentUnmatched(k: Key, t: string)
    ensures Scan(Segment((k, "")) + t) == Scan(t)
  {
    var seg := Segment((k, ""));
    EmptySegmentNoMatch(k, t);
    ScanUnmatched(seg, t);
    EmptySegmentTail(k);
    SkipNoKey(seg[1..], t);
  }

  // ---------------------------------------------------------------------------
  // Scanning a generated header
  // ---------------------------------------------------------------------------

  /** The match an attribute key="value" yields: none when the value is empty. */
  function Capture(f: (Key, string)): seq<Match> {
    if f.1 != "" then [Match(f.0, Quote(f.1))] else []
  }

  /** The matches the attributes fs yield, in order. */
  function Captures(fs: seq<(Key, string)>): seq<Match> {
    if fs == [] then [] else Capture(fs[0]) + Captures(fs[1..])
  }

  lemma ScanSegment(f: (Key, string), t: string)
    requires QuoteFree(f.1)
    ensures Scan(Segment(f) + t) == Capture(f) + Scan(t)
  {
    if f.1 == "" {
      EmptySegmentUnmatched(f.0, t);
    } else {
      var m := Match(f.0, Quote(f.1));
      assert Segment(f) == MatchText(m);
      MatchAtFinds(f.0, f.1, t);
      ScanMatched(Segment(f) + t, m, t);
    }
  }

  lemma JoinedHead(fs: seq<(Key, string)>)
    requires |fs| >= 2
    ensures Join(Segments(fs), ", ") == Segment(fs[0]) + ", " + Join(Segments(fs[1..]), ", ")
  {
    assert Segments(fs)[1..] == Segments(fs[1..]);
  }

  /** The separator between attributes adds nothing to the scan. */
  lemma SkipSeparator(t: string)
    ensures Scan(", " + t) == Scan(t)
  {
    SkipPunctuation(", ", t);
  }

  /** The joined segments followed by t: the first segment, the separator, then the rest. */
  lemma JoinedText(fs: seq<(Key, string)>, t: string)
    requires |fs| >= 2
    ensures Join(Segments(fs), ", ") + t
      == Segment(fs[0]) + (", " + (Join(Segments(fs[1..]), ", ") + t))
  {
    var seg, rest := Segment(fs[0]), Join(Segments(fs[1..]), ", ");
    JoinedHead(fs);
    AppendAssoc(seg + ", ", rest, t);
    AppendAssoc(seg, ", ", rest + t);
  }

  /** The inductive step of ScanJoined: one more attribute in front. */
  lemma ScanJoinedStep(fs: seq<(Key, string)>, t: string)
    requires |fs| >= 2 && QuoteFree(fs[0].1)
    requires Scan(Join(Segments(fs[1..]), ", ") + t) == Captures(fs[1..]) + Scan(t)
    ensures Scan(Join(Segments(fs), ", ") + t) == Captures(fs) + Scan(t)
  {
    var rest := Join(Segments(fs[1..]), ", ");
    var tail := ", " + (rest + t);
    calc {
      Scan(Join(Segments(fs), ", ") + t);
    == { JoinedText(fs, t); }
      Scan(Segment(fs[0]) + tail);
    == { ScanSegment(fs[0], tail); }
      Capture(fs[0]) + Scan(tail);
    == { SkipSeparator(rest + t); }
      Capture(fs[0]) + (Captures(fs[1..]) + Scan(t));
    == { AppendAssoc(Capture(fs[0]), Captures(fs[1..]), Scan(t)); }
      Captures(fs) + Scan(t);
    }
  }

  /** Scanning attributes joined by ", " finds each non-empty one, in order. */
  lemma {:induction false} ScanJoined(fs: seq<(Key, string)>, t: string)
    requires forall i | 0 <= i < |fs| :: QuoteFree(fs[i].1)
    ensures Scan(Join(Segments(fs), ", ") + t) == Captures(fs) + Scan(t)
  {
    if |fs| == 0 {
      assert Join(Segments(fs), ", ") + t == t;
    } else if |fs| == 1 {
      assert Join(Segments(fs), ", ") == Segment(fs[0]);
      assert Captures(fs) == Capture(fs[0]) by {
        assert fs[1..] == [];
      }
      ScanSegment(fs[0], t);
    } else {
      ScanJoined(fs[1..], t);
      ScanJoinedStep(fs, t);
    }
  }

  /** All five values are free of quote characters. */
  predicate ParamsQuoteFree(p: Params) {
    QuoteFree(p.id) && QuoteFree(p.ts) && QuoteFree(p.nonce) && QuoteFree(p.mac)
    && (p.ext.Some? ==> QuoteFree(p.ext.value))
  }

  lemma {:induction false} CapturesAppend(a: seq<(Key, string)>, b: seq<(Key, string)>)
    ensures Captures(a + b) == Captures(a) + Captures(b)
  {
    if a == [] {
      assert a + b == b;
    } else {
      assert (a + b)[1..] == a[1..] + b;
      CapturesAppend(a[1..], b);
      AppendAssoc(Capture(a[0]), Captures(a[1..]), Captures(b));
    }
  }

  lemma CapturesSingle(f: (Key, string))
    ensures Captures([f]) == Capture(f)
  {
    assert [f][1..] == [];
  }

  /** The matches of the attributes of a header, attribute by attribute. */
  lemma CapturesOfFields(p: Params)
    ensures Captures(Fields(p)) ==
      Capture((Id, p.id)) + Capture((Ts, p.ts)) + Capture((Nonce, p.nonce))
      + (if ExtPresent(p.ext) then Capture((Ext, p.ext.value)) else []) + Capture((Mac, p.mac))
  {
    var e := if ExtPresent(p.ext) then [(Ext, p.ext.value)] else [];
    var ce := if ExtPresent(p.ext) then Capture((Ext, p.ext.value)) else [];
    var a, b, c, m := (Id, p.id), (Ts, p.ts), (Nonce, p.nonce), (Mac, p.mac);
    assert Fields(p) == [a] + [b] + [c] + e + [m];
    CapturesAppend([a] + [b] + [c] + e, [m]);
    CapturesAppend([a] + [b] + [c], e);
    CapturesAppend([a] + [b], [c]);
    CapturesAppend([a], [b]);
    CapturesSingle(a);
    CapturesSingle(b);
    CapturesSingle(c);
    CapturesSingle(m);
    assert Captures(e) == ce by {
      if ExtPresent(p.ext) {
        CapturesSingle((Ext, p.ext.value));
      }
    }
  }

  lemma FieldsQuoteFree(p: Params)
    requires ParamsQuoteFree(p)
    ensures forall i | 0 <= i < |Fields(p)| :: QuoteFree(Fields(p)[i].1)
  {
    var fs := Fields(p);
    forall i | 0 <= i < |fs| ensures QuoteFree(fs[i].1) {
      if i == 3 && ExtPresent(p.ext) {
        assert fs[i].1 == p.ext.value;
      } else if i == |fs| - 1 {
        assert fs[i].1 == p.mac;
      }
    }
  }

  /** The scan of a generated header finds exactly its non-empty attributes, in wire order. */
  lemma ScanWire(p: Params)
    requires ParamsQuoteFree(p)
    ensures Scan(Wire(p)) == Captures(Fields(p))
    ensures Scan(Wire(p)) ==
      Capture((Id, p.id)) + Capture((Ts, p.ts)) + Capture((Nonce, p.nonce))
      + (if ExtPresent(p.ext) then Capture((Ext, p.ext.value)) else []) + Capture((Mac, p.mac))
  {
    var fs := Fields(p);
    var body := Join(Segments(fs), ", ");
    assert body + "" == body;
    SkipPunctuation("MAC ", body + "");
    FieldsQuoteFree(p);
    ScanJoined(fs, "");
    assert Scan("") == [];
    CapturesOfFields(p);
  }

  // ---------------------------------------------------------------------------
  // parse after generate
  // ---------------------------------------------------------------------------

  /** The value Parse returns for ext: what was written, or nil when it was left out. */
  function ExpectedExt(ext: Option<string>): Option<string> {
    if ExtPresent(ext) then ext else None
  }

  /** The value generate writes for key k, "" when it writes none for it. */
  function FieldValue(p: Params, k: Key): string {
    match k
    case Id => p.id
    case Ts => p.ts
    case Nonce => p.nonce
    case Ext => if ExtPresent(p.ext) then p.ext.value else ""
    case Mac => p.mac
  }

  /** The matches of a header's attributes: one per key with a non-empty value, holding that value quoted. */
  lemma FieldMembers(p: Params)
    ensures forall m | m in Captures(Fields(p)) :: FieldValue(p, m.key) != "" && m.value == Quote(FieldValue(p, m.key))
    ensures forall k | FieldValue(p, k) != "" :: Match(k, Quote(FieldValue(p, k))) in Captures(Fields(p))
  {
    CapturesOfFields(p);
    var c1, c2, c3, c5 := Capture((Id, p.id)), Capture((Ts, p.ts)), Capture((Nonce, p.nonce)), Capture((Mac, p.mac));
    var c4 := if ExtPresent(p.ext) then Capture((Ext, p.ext.value)) else [];
    var ms := Captures(Fields(p));
    assert ms == c1 + c2 + c3 + c4 + c5;
    forall m | m in ms ensures FieldValue(p, m.key) != "" && m.value == Quote(FieldValue(p, m.key)) {
      assert m in c1 || m in c2 || m in c3 || m in c4 || m in c5;
    }
    forall k | FieldValue(p, k) != "" ensures Match(k, Quote(FieldValue(p, k))) in ms {
      match k
      case Id => assert Match(k, Quote(p.id)) in c1;
      case Ts => assert Match(k, Quote(p.ts)) in c2;
      case Nonce => assert Match(k, Quote(p.nonce)) in c3;
      case Ext => assert Match(k, Quote(p.ext.value)) in c4;
      case Mac => assert Match(k, Quote(p.mac)) in c5;
    }
  }

  /** Each value generate writes for a quote-free p is quote-free. */
  lemma FieldValuesQuoteFree(p: Params)
    requires ParamsQuoteFree(p)
    ensures forall k :: QuoteFree(FieldValue(p, k))
  {
    forall k ensures QuoteFree(FieldValue(p, k)) {
      match k
      case Id =>
      case Ts =>
      case Nonce =>
      case Ext =>
      case Mac =>
    }
  }

  /** The cleaned hash of matches that hold exactly the non-empty values of p maps each such key to its value. */
  lemma FieldHash(ms: seq<Match>, p: Params)
    requires ParamsQuoteFree(p)
    requires forall m | m in ms :: FieldValue(p, m.key) != "" && m.value == Quote(FieldValue(p, m.key))
    requires forall k | FieldValue(p, k) != "" :: Match(k, Quote(FieldValue(p, k))) in ms
    ensures forall m | m in ms :: IsQuotedValue(m.value)
    ensures forall k :: k in ToHash(ms) <==> FieldValue(p, k) != ""
    ensures forall k | k in ToHash(ms) :: CleanAll(ToHash(ms))[k] == FieldValue(p, k)
  {
    FieldValuesQuoteFree(p);
    forall m | m in ms ensures IsQuotedValue(m.value) {
      QuoteIsQuotedValue(FieldValue(p, m.key));
    }
    var h := ToHash(ms);
    forall k ensures k in h <==> FieldValue(p, k) != "" {
      if FieldValue(p, k) != "" {
        assert Match(k, Quote(FieldValue(p, k))) in ms;
      }
    }
    forall k | k in h ensures CleanAll(h)[k] == FieldValue(p, k) {
      assert Match(k, h[k]) in ms;
      StripQuotesOfQuote(FieldValue(p, k));
    }
  }

  /** FromMatches when the i-th mandatory key is the first one the matches lack. */
  lemma FromMatchesMissing(ms: seq<Match>, i: int)
    requires forall m | m in ms :: IsQuotedValue(m.value)
    requires IsFirstMissing(KeysOf(ms), Mandatory, i)
    ensures FromMatches(ms) == MissingKey(Mandatory[i])
  {
    assert ToHash(ms).Keys == KeysOf(ms);
  }

  /** A hash with the four mandatory keys passes the check. */
  lemma NoneMissing(h: map<Key, string>)
    requires Id in h && Ts in h && Nonce in h && Mac in h
    ensures FirstMissing(h, Mandatory) == None
  {
    assert Mandatory == [Id, Ts, Nonce, Mac];
    assert forall i | 0 <= i < |Mandatory| :: Mandatory[i] in h;
  }

  /** FromMatches when the matches hold every mandatory key. */
  lemma FromMatchesFound(ms: seq<Match>)
    requires forall m | m in ms :: IsQuotedValue(m.value)
    requires Id in ToHash(ms) && Ts in ToHash(ms) && Nonce in ToHash(ms) && Mac in ToHash(ms)
    ensures var c := CleanAll(ToHash(ms));
      FromMatches(ms) == Parsed(c[Id], c[Ts], c[Nonce], if Ext in c then Some(c[Ext]) else None, c[Mac])
  {
    NoneMissing(ToHash(ms));
  }

  /** FromMatches when the hash lacks exactly the keys p leaves empty, a mandatory one among them. */
  lemma MissingFromFields(ms: seq<Match>, p: Params)
    requires forall m | m in ms :: IsQuotedValue(m.value)
    requires forall k :: k in ToHash(ms) <==> FieldValue(p, k) != ""
    requires p.id == "" || p.ts == "" || p.nonce == "" || p.mac == ""
    ensures FromMatches(ms) ==
      if p.id == "" then MissingKey(Id)
      else if p.ts == "" then MissingKey(Ts)
      else if p.nonce == "" then MissingKey(Nonce)
      else MissingKey(Mac)
  {
    var h := ToHash(ms);
    assert FieldValue(p, Id) == p.id && FieldValue(p, Ts) == p.ts;
    assert FieldValue(p, Nonce) == p.nonce && FieldValue(p, Mac) == p.mac;
    assert Mandatory[0] == Id && Mandatory[1] == Ts && Mandatory[2] == Nonce && Mandatory[3] == Mac;
    if p.id == "" {
      assert IsFirstMissing(h.Keys, Mandatory, 0);
      FromMatchesMissing(ms, 0);
    } else if p.ts == "" {
      assert IsFirstMissing(h.Keys, Mandatory, 1);
      FromMatchesMissing(ms, 1);
    } else if p.nonce == "" {
      assert IsFirstMissing(h.Keys, Mandatory, 2);
      FromMatchesMissing(ms, 2);
    } else {
      assert IsFirstMissing(h.Keys, Mandatory, 3);
      FromMatchesMissing(ms, 3);
    }
  }

  /** FromMatches when the cleaned hash holds exactly the non-empty values of p, mandatory ones included. */
  lemma ParsedFromFields(ms: seq<Match>, p: Params)
    requires forall m | m in ms :: IsQuotedValue(m.value)
    requires forall k :: k in ToHash(ms) <==> FieldValue(p, k) != ""
    requires forall k | k in ToHash(ms) :: CleanAll(ToHash(ms))[k] == FieldValue(p, k)
    requires p.id != "" && p.ts != "" && p.nonce != "" && p.mac != ""
    ensures FromMatches(ms) == Parsed(p.id, p.ts, p.nonce, ExpectedExt(p.ext), p.mac)
  {
    var h := ToHash(ms);
    assert FieldValue(p, Id) == p.id && FieldValue(p, Ts) == p.ts;
    assert FieldValue(p, Nonce) == p.nonce && FieldValue(p, Mac) == p.mac;
    FromMatchesFound(ms);
    if ExtPresent(p.ext) {
      assert FieldValue(p, Ext) == p.ext.value;
      assert Ext in h;
    } else {
      assert FieldValue(p, Ext) == "";
    }
  }

  /**
    The result for matches that hold exactly the non-empty values of p: the
    first mandatory key left empty, or every value with ext present exactly
    when it is non-empty.
   */
  lemma FromFieldMatches(ms: seq<Match>, p: Params)
    requires ParamsQuoteFree(p)
    requires forall m | m in ms :: FieldValue(p, m.key) != "" && m.value == Quote(FieldValue(p, m.key))
    requires forall k | FieldValue(p, k) != "" :: Match(k, Quote(FieldValue(p, k))) in ms
    ensures forall m | m in ms :: IsQuotedValue(m.value)
    ensures FromMatches(ms) ==
      if p.id == "" then MissingKey(Id)
      else if p.ts == "" then MissingKey(Ts)
      else if p.nonce == "" then MissingKey(Nonce)
      else if p.mac == "" then MissingKey(Mac)
      else Parsed(p.id, p.ts, p.nonce, ExpectedExt(p.ext), p.mac)
  {
    FieldHash(ms, p);
    if p.id == "" || p.ts == "" || p.nonce == "" || p.mac == "" {
      MissingFromFields(ms, p);
    } else {
      ParsedFromFields(ms, p);
    }
  }

  /**
    `parse(generate(...))` for quote-free values: the error names the first
    mandatory attribute written empty; otherwise every value comes back, and
    ext comes back exactly when it was written.
   */
  lemma ParseGenerated(p: Params)
    requires ParamsQuoteFree(p)
    ensures Parse(Wire(p)) ==
      if p.id == "" then MissingKey(Id)
      else if p.ts == "" then MissingKey(Ts)
      else if p.nonce == "" then MissingKey(Nonce)
      else if p.mac == "" then MissingKey(Mac)
      else Parsed(p.id, p.ts, p.nonce, ExpectedExt(p.ext), p.mac)
  {
    ScanWire(p);
    FieldMembers(p);
    FromFieldMatches(Scan(Wire(p)), p);
  }

  /**
    Round trip: with non-empty, quote-free id, ts, nonce and mac and a
    quote-free ext, parsing the generated header gives the values back; an
    ext that was nil or empty comes back as nil.
   */
  lemma RoundTrip(id: string, ts: string, nonce: string, ext: Option<string>, mac: string)
    requires WellFormedValue(id) && WellFormedValue(ts) && WellFormedValue(nonce) && WellFormedValue(mac)
    requires ext.Some? ==> QuoteFree(ext.value)
    ensures Parse(Wire(Params(id, ts, nonce, ext, mac))) ==
      Parsed(id, ts, nonce, if ext == Some("") then None else ext, mac)
  {
    ParseGenerated(Params(id, ts, nonce, ext, mac));
  }

  /** nil and "" for ext give the same header, whatever the other values. */
  lemma ExtNilSameAsEmpty(id: string, ts: string, nonce: string, mac: string)
    ensures Wire(Params(id, ts, nonce, None, mac)) == Wire(Params(id, ts, nonce, Some(""), mac))
  {
    assert Fields(Params(id, ts, nonce, None, mac)) == Fields(Params(id, ts, nonce, Some(""), mac));
  }

  /** A header written with a nil or empty ext has no ext match when its values are quote-free. */
  lemma ExtNilNotScanned(id: string, ts: string, nonce: string, mac: string)
    requires QuoteFree(id) && QuoteFree(ts) && QuoteFree(nonce) && QuoteFree(mac)
    ensures Ext !in KeysOf(Scan(Wire(Params(id, ts, nonce, None, mac))))
  {
    var p := Params(id, ts, nonce, None, mac);
    ScanWire(p);
    FieldMembers(p);
    assert FieldValue(p, Ext) == "";
  }

  /** A header is the attributes before mac, joined and followed by the separator, then mac="...". */
  lemma WireWithoutMac(p: Params)
    ensures var init := Fields(p)[..|Fields(p)| - 1];
      Wire(p) == "MAC " + (Join(Segments(init), ", ") + ", ") + Segment((Mac, p.mac))
  {
    var fs := Fields(p);
    var init := fs[..|fs| - 1];
    assert fs == init + [(Mac, p.mac)];
    assert Segments(fs) == Segments(init) + [Segment((Mac, p.mac))];
    JoinSnoc(Segments(init), Segment((Mac, p.mac)), ", ");
  }

  /** The separator alone holds no match. */
  lemma ScanSeparator()
    ensures Scan(", ") == []
  {
    assert ", " == ", " + "";
    SkipPunctuation(", ", "");
    assert Scan("") == [];
  }

  /** The attributes before mac are quote-free when the values are. */
  lemma InitQuoteFree(p: Params)
    requires ParamsQuoteFree(p)
    ensures var init := Fields(p)[..|Fields(p)| - 1];
      forall i | 0 <= i < |init| :: QuoteFree(init[i].1)
  {
    FieldsQuoteFree(p);
  }

  /** The attributes before mac, joined and followed by the separator, scan to their captures. */
  lemma ScanWithoutMac(p: Params)
    requires ParamsQuoteFree(p)
    ensures var init := Fields(p)[..|Fields(p)| - 1];
      Scan("MAC " + (Join(Segments(init), ", ") + ", ")) == Captures(init)
  {
    var init := Fields(p)[..|Fields(p)| - 1];
    var body := Join(Segments(init), ", ");
    SkipPunctuation("MAC ", body + ", ");
    InitQuoteFree(p);
    ScanJoined(init, ", ");
    ScanSeparator();
  }

  /** The generated header with its trailing mac="..." cut off no longer parses. */
  lemma ParseWithoutMacFails(p: Params)
    requires ParamsQuoteFree(p)
    requires p.id != "" && p.ts != "" && p.nonce != ""
    ensures EndsWith(Wire(p), Segment((Mac, p.mac)))
    ensures Parse(Wire(p)[..|Wire(p)| - |Segment((Mac, p.mac))|]) == MissingKey(Mac)
  {
    var init := Fields(p)[..|Fields(p)| - 1];
    var cut := "MAC " + (Join(Segments(init), ", ") + ", ");
    var w := Wire(p);
    WireWithoutMac(p);
    assert w[..|w| - |Segment((Mac, p.mac))|] == cut;
    ScanWithoutMac(p);
    var ms := Scan(cut);
    // The same matches as a header written with an empty mac.
    var q := p.(mac := "");
    assert Fields(q) == init + [(Mac, "")];
    CapturesAppend(init, [(Mac, "")]);
    CapturesSingle((Mac, ""));
    assert Captures(Fields(q)) == ms;
    FieldMembers(q);
    FromFieldMatches(ms, q);
  }


  /** The generated header with the mac value emptied, mac="", no longer parses. */
  lemma ParseEmptyMacFails(p: Params)
    requires ParamsQuoteFree(p)
    requires p.id != "" && p.ts != "" && p.nonce != ""
    ensures Parse(Wire(p.(mac := ""))) == MissingKey(Mac)
  {
    ParseGenerated(p.(mac := ""));
  }

  // ---------------------------------------------------------------------------
  // parse on any header
  // ---------------------------------------------------------------------------

  /** The value a successful parse gives for key k. */
  function ResultValue(r: ParseResult, k: Key): Option<string>
    requires r.Parsed?
  {
    match k
    case Id => Some(r.id)
    case Ts => Some(r.ts)
    case Nonce => Some(r.nonce)
    case Ext => r.ext
    case Mac => Some(r.mac)
  }

  /** Duplicates: Parse returns the value of the last match of each key, unquoted. */
  lemma ParseTakesLast(header: string, i: int, k: Key)
    requires Parse(header).Parsed?
    requires IsLast(Scan(header), i, k)
    ensures var v := Scan(header)[i].value;
      |v| >= 2 && ResultValue(Parse(header), k) == Some(v[1..|v| - 1])
  {
    var ms := Scan(header);
    LastOccurrenceWins(ms, i, k);
    assert ms[i] in ms;
    StripQuotesOfCapture(ms[i].value);
  }

  /** Parse does not look for the "MAC " scheme name. */
  lemma ParseIgnoresScheme(header: string)
    ensures Parse("MAC " + header) == Parse(header)
  {
    SkipPunctuation("MAC ", header);
    assert Scan("MAC " + header) == Scan(header);
  }
}
