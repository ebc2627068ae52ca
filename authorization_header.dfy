/**
  The MAC-scheme "Authorization" request header codec:

    MAC id="<id>", ts="<ts>", nonce="<nonce>"[, ext="<ext>"], mac="<mac>"

  `Generate` formats the header; `Parse` scans it for `key="value"` pairs,
  checks that the mandatory keys are there and unquotes the values.
 */
module AuthorizationHeader {
  import opened Wrappers

  /** The five attribute names the header knows about. */
  datatype Key = Id | Ts | Nonce | Ext | Mac

  function KeyName(k: Key): string {
    match k
    case Id => "id"
    case Ts => "ts"
    case Nonce => "nonce"
    case Ext => "ext"
    case Mac => "mac"
  }

  /** The attribute values given to `Generate`; `ts` is already text. */
  datatype Params = Params(id: string, ts: string, nonce: string, ext: Option<string>, mac: string)

  /** What `Parse` returns, or the `KeyError` it raises, naming the missing key. */
  datatype ParseResult =
    | Parsed(id: string, ts: string, nonce: string, ext: Option<string>, mac: string)
    | MissingKey(key: Key)

  /** The keys `Parse` insists on, in the order it checks them. */
  const Mandatory: seq<Key> := [Id, Ts, Nonce, Mac]

  predicate QuoteFree(s: string) {
    '"' !in s
  }

  // ---------------------------------------------------------------------------
  // generate
  // ---------------------------------------------------------------------------

  /** The `ext` attribute is written only when it is neither nil nor empty. */
  predicate ExtPresent(ext: Option<string>) {
    ext.Some? && ext.value != ""
  }

  /** One attribute as written on the wire: key="value". */
  function Segment(f: (Key, string)): string {
    KeyName(f.0) + "=\"" + f.1 + "\""
  }

  /** The attributes in wire order, `ext` only when present. */
  function Fields(p: Params): (fs: seq<(Key, string)>)
    ensures |fs| == if ExtPresent(p.ext) then 5 else 4
  {
    [(Id, p.id), (Ts, p.ts), (Nonce, p.nonce)]
    + (if ExtPresent(p.ext) then [(Ext, p.ext.value)] else [])
    + [(Mac, p.mac)]
  }

  function Segments(fs: seq<(Key, string)>): (ss: seq<string>)
    ensures |ss| == |fs|
    ensures forall i | 0 <= i < |fs| :: ss[i] == Segment(fs[i])
  {
    seq(|fs|, i requires 0 <= i < |fs| => Segment(fs[i]))
  }

  /** The parts separated by `sep`, with no separator after the last one. */
  function Join(parts: seq<string>, sep: string): string {
    if |parts| == 0 then ""
    else if |parts| == 1 then parts[0]
    else parts[0] + sep + Join(parts[1..], sep)
  }

  /**
    The wire format: the scheme name, then every attribute as key="value",
    separated by a comma and one space.
   */
  function Wire(p: Params): string {
    "MAC " + Join(Segments(Fields(p)), ", ")
  }

  predicate EndsWith(s: string, suffix: string) {
    |suffix| <= |s| && s[|s| - |suffix|..] == suffix
  }

  lemma AppendAssoc<T>(a: seq<T>, b: seq<T>, c: seq<T>)
    ensures a + b + c == a + (b + c)
  {
  }

  /** Joining one more part appends the separator and that part. */
  lemma {:induction false} JoinSnoc(parts: seq<string>, x: string, sep: string)
    requires parts != []
    ensures Join(parts + [x], sep) == Join(parts, sep) + sep + x
  {
    if |parts| == 1 {
      assert (parts + [x])[1..] == [x];
    } else {
      assert (parts + [x])[1..] == parts[1..] + [x];
      JoinSnoc(parts[1..], x, sep);
      AppendAssoc(parts[0] + sep, Join(parts[1..], sep) + sep, x);
    }
  }

  /** The segments of a header's attributes, one by one. */
  lemma SegmentsOfFields(p: Params)
    ensures Segments(Fields(p)) ==
      [Segment((Id, p.id)), Segment((Ts, p.ts)), Segment((Nonce, p.nonce))]
      + (if ExtPresent(p.ext) then [Segment((Ext, p.ext.value))] else [])
      + [Segment((Mac, p.mac))]
  {
  }

  /**
    A buffer holding the scheme and the segments w, each followed by the
    separator, still does after key="value", is appended to it.
   */
  lemma AppendSegment(buf: string, w: seq<string>, k: Key, v: string, open: string, close: string)
    requires open == KeyName(k) + "=\"" && close == "\", "
    requires w != [] && buf == "MAC " + Join(w, ", ") + ", "
    ensures buf + open + v + close == "MAC " + Join(w + [Segment((k, v))], ", ") + ", "
  {
    var seg := Segment((k, v));
    assert buf + open + v + close == buf + (seg + ", ");
    JoinSnoc(w, seg, ", ");
    var j := Join(w, ", ");
    assert ("MAC " + j + ", ") + (seg + ", ") == "MAC " + (j + ", " + seg) + ", ";
  }

  /** Appending the last key="value" completes the joined segments. */
  lemma AppendLastSegment(buf: string, w: seq<string>, k: Key, v: string, open: string, close: string)
    requires open == KeyName(k) + "=\"" && close == "\""
    requires w != [] && buf == "MAC " + Join(w, ", ") + ", "
    ensures buf + open + v + close == "MAC " + Join(w + [Segment((k, v))], ", ")
    ensures buf + open + v + close == buf + Segment((k, v))
  {
    var seg := Segment((k, v));
    assert buf + open + v + close == buf + seg;
    JoinSnoc(w, seg, ", ");
    var j := Join(w, ", ");
    assert ("MAC " + j + ", ") + seg == "MAC " + (j + ", " + seg);
  }

  /** The header with ext, written out piece by piece. */
  lemma WireWithExt(id: string, ts: string, nonce: string, ext: string, mac: string)
    requires ext != ""
    ensures Wire(Params(id, ts, nonce, Some(ext), mac)) ==
      "MAC " + "id=\"" + id + "\", " + "ts=\"" + ts + "\", " + "nonce=\"" + nonce + "\", "
      + "ext=\"" + ext + "\", " + "mac=\"" + mac + "\""
  {
    var w := [Segment((Id, id))];
    var h1 := "MAC " + "id=\"" + id + "\", ";
    assert h1 == "MAC " + Join(w, ", ") + ", ";
    var h2 := h1 + "ts=\"" + ts + "\", ";
    AppendSegment(h1, w, Ts, ts, "ts=\"", "\", ");
    w := w + [Segment((Ts, ts))];
    var h3 := h2 + "nonce=\"" + nonce + "\", ";
    AppendSegment(h2, w, Nonce, nonce, "nonce=\"", "\", ");
    w := w + [Segment((Nonce, nonce))];
    var h4 := h3 + "ext=\"" + ext + "\", ";
    AppendSegment(h3, w, Ext, ext, "ext=\"", "\", ");
    w := w + [Segment((Ext, ext))];
    AppendLastSegment(h4, w, Mac, mac, "mac=\"", "\"");
    w := w + [Segment((Mac, mac))];
    assert w == Segments(Fields(Params(id, ts, nonce, Some(ext), mac))) by {
      SegmentsOfFields(Params(id, ts, nonce, Some(ext), mac));
    }
  }

  /** The header without ext (nil or empty), written out piece by piece. */
  lemma WireWithoutExt(id: string, ts: string, nonce: string, ext: Option<string>, mac: string)
    requires !ExtPresent(ext)
    ensures Wire(Params(id, ts, nonce, ext, mac)) ==
      "MAC " + "id=\"" + id + "\", " + "ts=\"" + ts + "\", " + "nonce=\"" + nonce + "\", "
      + "mac=\"" + mac + "\""
  {
    var w := [Segment((Id, id))];
    var h1 := "MAC " + "id=\"" + id + "\", ";
    assert h1 == "MAC " + Join(w, ", ") + ", ";
    var h2 := h1 + "ts=\"" + ts + "\", ";
    AppendSegment(h1, w, Ts, ts, "ts=\"", "\", ");
    w := w + [Segment((Ts, ts))];
    var h3 := h2 + "nonce=\"" + nonce + "\", ";
    AppendSegment(h2, w, Nonce, nonce, "nonce=\"", "\", ");
    w := w + [Segment((Nonce, nonce))];
    AppendLastSegment(h3, w, Mac, mac, "mac=\"", "\"");
    w := w + [Segment((Mac, mac))];
    assert w == Segments(Fields(Params(id, ts, nonce, ext, mac))) by {
      SegmentsOfFields(Params(id, ts, nonce, ext, mac));
    }
  }

  /** `generate`: appends the attributes to the buffer one by one. */
  method Generate(id: string, ts: string, nonce: string, ext: Option<string>, mac: string)
    returns (header: string)
    ensures header == Wire(Params(id, ts, nonce, ext, mac))
    ensures "MAC " <= header
    ensures EndsWith(header, Segment((Mac, mac)))
  {
    header := "MAC ";
    header := header + "id=\"" + id + "\", ";
    ghost var written := [Segment((Id, id))];
    assert header == "MAC " + Join(written, ", ") + ", ";
    ghost var buf := header;
    header := header + "ts=\"" + ts + "\", ";
    AppendSegment(buf, written, Ts, ts, "ts=\"", "\", ");
    written := written + [Segment((Ts, ts))];
    buf := header;
    header := header + "nonce=\"" + nonce + "\", ";
    AppendSegment(buf, written, Nonce, nonce, "nonce=\"", "\", ");
    written := written + [Segment((Nonce, nonce))];
    if ext.Some? && ext.value != "" {
      buf := header;
      header := header + "ext=\"" + ext.value + "\", ";
      AppendSegment(buf, written, Ext, ext.value, "ext=\"", "\", ");
      written := written + [Segment((Ext, ext.value))];
    }
    buf := header;
    header := header + "mac=\"" + mac + "\"";
    AppendLastSegment(buf, written, Mac, mac, "mac=\"", "\"");
    written := written + [Segment((Mac, mac))];
    assert written == Segments(Fields(Params(id, ts, nonce, ext, mac))) by {
      SegmentsOfFields(Params(id, ts, nonce, ext, mac));
    }
    assert EndsWith(header, Segment((Mac, mac))) by {
      assert header[|buf|..] == Segment((Mac, mac));
    }
    assert "MAC " <= header by {
      assert header[..4] == "MAC ";
    }
  }

  /** What the signature collaborator is asked about one request. */
  datatype Request = Request(algorithm: string, key: string, httpMethod: string, uri: string,
                             host: string, port: int, ext: string)

  /** What the signature collaborator answers: ts, nonce, ext and mac. */
  datatype Signature = Signature(ts: string, nonce: string, ext: string, mac: string)

  /**
    `generate_with_new_signature`: `Generate` applied to whatever the signature
    collaborator, here the parameter `sign`, computes for the request.
   */
  method GenerateWithNewSignature(sign: Request -> Signature, id: string, request: Request)
    returns (header: string)
    ensures header == Wire(Params(id, sign(request).ts, sign(request).nonce,
                                  Some(sign(request).ext), sign(request).mac))
  {
    var s := sign(request);
    header := Generate(id, s.ts, s.nonce, Some(s.ext), s.mac);
  }

  // ---------------------------------------------------------------------------
  // The scan of (id|ts|nonce|ext|mac)=("[^"]+")
  // ---------------------------------------------------------------------------

  /** One match of the pattern: the key and the captured value, quotes included. */
  datatype Match = Match(key: Key, value: string)

  /** The text a match covers. */
  function MatchText(m: Match): string {
    KeyName(m.key) + "=" + m.value
  }

  function Quote(s: string): string {
    "\"" + s + "\""
  }

  /** A capture of ("[^"]+"): two quotes around at least one non-quote character. */
  predicate IsQuotedValue(v: string) {
    |v| >= 3 && v == Quote(v[1..|v| - 1]) && QuoteFree(v[1..|v| - 1])
  }

  /** Which alternative of (id|ts|nonce|ext|mac) starts s, tried in that order. */
  function KeyAt(s: string): (r: Option<Key>)
    ensures r.Some? ==> KeyName(r.value) <= s
    ensures r.None? ==> forall k: Key :: !(KeyName(k) <= s)
  {
    if KeyName(Id) <= s then Some(Id)
    else if KeyName(Ts) <= s then Some(Ts)
    else if KeyName(Nonce) <= s then Some(Nonce)
    else if KeyName(Ext) <= s then Some(Ext)
    else if KeyName(Mac) <= s then Some(Mac)
    else None
  }

  /** The names start with different letters, so at most one of them starts s. */
  lemma KeyNamesDistinct(k: Key, k': Key, s: string)
    requires KeyName(k) <= s && KeyName(k') <= s
    ensures k == k'
  {
    assert KeyName(k)[0] == s[0] == KeyName(k')[0];
  }

  /** The length of the run of non-quote characters that starts s ([^"]+ is greedy). */
  function NonQuoteRun(s: string): (n: nat)
    ensures n <= |s|
    ensures QuoteFree(s[..n])
    ensures n < |s| ==> s[n] == '"'
  {
    if s == [] || s[0] == '"' then 0
    else
      var n := 1 + NonQuoteRun(s[1..]);
      assert s[..n] == [s[0]] + s[1..][..n - 1];
      n
  }

  lemma QuoteIsQuotedValue(c: string)
    requires c != "" && QuoteFree(c)
    ensures IsQuotedValue(Quote(c))
  {
    assert Quote(c)[1..|Quote(c)| - 1] == c;
  }

  /** The capture of ="([^"]+)" at the start of rest, the text after a key name, quotes included. */
  function CaptureAfter(rest: string): (r: Option<string>)
    ensures r.Some? ==> "=" + r.value <= rest && IsQuotedValue(r.value)
  {
    if |rest| < 2 || rest[0] != '=' || rest[1] != '"' then None
    else
      var n := NonQuoteRun(rest[2..]);
      if n == 0 || n == |rest| - 2 then None
      else
        var c := rest[2..n + 2];
        assert rest[..n + 3] == "=" + Quote(c) by {
          assert rest[2..][..n] == c;
        }
        QuoteIsQuotedValue(c);
        Some(Quote(c))
  }

  /** key=value starts s when the key does and =value follows it. */
  lemma MatchTextPrefix(s: string, k: Key, v: string)
    requires KeyName(k) <= s && "=" + v <= s[|KeyName(k)|..]
    ensures MatchText(Match(k, v)) <= s
  {
    var n := |KeyName(k)|;
    var w := "=" + v;
    assert MatchText(Match(k, v)) == KeyName(k) + w;
    forall i | 0 <= i < n + |w| ensures (KeyName(k) + w)[i] == s[i] {
      if i >= n {
        assert w[i - n] == s[n..][i - n];
      }
    }
  }

  /** The match of the pattern that starts exactly at the beginning of s, if any. */
  function MatchAt(s: string): (r: Option<Match>)
    ensures r.Some? ==> MatchText(r.value) <= s && IsQuotedValue(r.value.value)
  {
    match KeyAt(s)
    case None => None
    case Some(k) =>
      var rest := s[|KeyName(k)|..];
      match CaptureAfter(rest)
      case None => None
      case Some(v) =>
        MatchTextPrefix(s, k, v);
        Some(Match(k, v))
  }

  /** KeyAt picks the key whose name starts s. */
  lemma KeyAtOf(k: Key, s: string)
    requires KeyName(k) <= s
    ensures KeyAt(s) == Some(k)
  {
    KeyNamesDistinct(k, KeyAt(s).value, s);
  }

  /** After a key, ="c" is captured as Quote(c) whatever follows it. */
  lemma CaptureAfterOf(c: string, t: string)
    requires c != "" && QuoteFree(c)
    ensures CaptureAfter("=\"" + c + "\"" + t) == Some(Quote(c))
  {
    var rest := "=\"" + c + "\"" + t;
    assert rest[2..] == c + ("\"" + t);
    NonQuoteRunOf(c, "\"" + t);
    assert rest[2..|c| + 2] == c;
  }

  /** A match is found wherever the text key="value" (value non-empty, quote-free) starts. */
  lemma MatchAtFinds(k: Key, c: string, t: string)
    requires c != "" && QuoteFree(c)
    ensures MatchAt(MatchText(Match(k, Quote(c))) + t) == Some(Match(k, Quote(c)))
  {
    var s := MatchText(Match(k, Quote(c))) + t;
    var rest := "=\"" + c + "\"" + t;
    assert s == KeyName(k) + rest;
    KeyAtOf(k, s);
    assert s[|KeyName(k)|..] == rest;
    CaptureAfterOf(c, t);
  }

  lemma NonQuoteRunOf(c: string, t: string)
    requires QuoteFree(c) && t != [] && t[0] == '"'
    ensures NonQuoteRun(c + t) == |c|
  {
    var n := NonQuoteRun(c + t);
    assert (c + t)[|c|] == '"';
    assert (c + t)[..|c|] == c;
  }

  /**
    MatchAt finds exactly the matches the pattern describes: s starts with
    key="value" where the value is non-empty and free of quotes.
   */
  lemma MatchAtIff(s: string, m: Match)
    ensures MatchAt(s) == Some(m) <==> MatchText(m) <= s && IsQuotedValue(m.value)
  {
    if MatchText(m) <= s && IsQuotedValue(m.value) {
      var c := m.value[1..|m.value| - 1];
      var t := s[|MatchText(m)|..];
      assert s == MatchText(Match(m.key, Quote(c))) + t;
      MatchAtFinds(m.key, c, t);
    }
  }

  /**
    `header.scan(pattern)`: leftmost, non-overlapping matches from left to
    right; after a position where nothing matches the scan moves on by one.
   */
  function Scan(s: string): (r: seq<Match>)
    ensures forall m | m in r :: IsQuotedValue(m.value)
    decreases |s|
  {
    if s == [] then []
    else
      match MatchAt(s)
      case Some(m) => [m] + Scan(s[|MatchText(m)|..])
      case None => Scan(s[1..])
  }

  /** One step of the scan where a match starts. */
  lemma ScanMatched(s: string, m: Match, t: string)
    requires s == MatchText(m) + t && MatchAt(s) == Some(m)
    ensures Scan(s) == [m] + Scan(t)
  {
    assert s[|MatchText(m)|..] == t;
  }

  /** One step of the scan where no match starts. */
  lemma ScanUnmatched(p: string, t: string)
    requires p != [] && MatchAt(p + t) == None
    ensures Scan(p + t) == Scan(p[1..] + t)
  {
    assert (p + t)[1..] == p[1..] + t;
  }

  /** The keys that occur among the matches. */
  function KeysOf(ms: seq<Match>): set<Key> {
    set m | m in ms :: m.key
  }

  /** `Hash[pairs]`: later pairs overwrite earlier pairs with the same key. */
  function ToHash(ms: seq<Match>): (h: map<Key, string>)
    ensures h.Keys == KeysOf(ms)
    ensures forall k | k in h :: Match(k, h[k]) in ms
  {
    if ms == [] then map[]
    else
      var last := ms[|ms| - 1];
      var init := ms[..|ms| - 1];
      assert ms == init + [last];
      ToHash(init)[last.key := last.value]
  }

  /** Index i holds the last match in ms with key k. */
  predicate IsLast(ms: seq<Match>, i: int, k: Key) {
    0 <= i < |ms| && ms[i].key == k && forall j | i < j < |ms| :: ms[j].key != k
  }

  /** Last occurrence wins: the hash maps a key to the value of its last match. */
  lemma {:induction false} LastOccurrenceWins(ms: seq<Match>, i: int, k: Key)
    requires IsLast(ms, i, k)
    ensures k in ToHash(ms) && ToHash(ms)[k] == ms[i].value
  {
    if i < |ms| - 1 {
      var init := ms[..|ms| - 1];
      assert IsLast(init, i, k);
      LastOccurrenceWins(init, i, k);
    }
  }

  // ---------------------------------------------------------------------------
  // validate_presence_of_keys_and_values
  // ---------------------------------------------------------------------------

  /** keys[i] is the first of keys that is not in present. */
  predicate IsFirstMissing(present: set<Key>, keys: seq<Key>, i: int) {
    0 <= i < |keys| && keys[i] !in present && forall j | 0 <= j < i :: keys[j] in present
  }

  /** The first of keys that the hash lacks, or None when it has them all. */
  function FirstMissing(hash: map<Key, string>, keys: seq<Key>): (r: Option<Key>)
    ensures r.None? <==> forall i | 0 <= i < |keys| :: keys[i] in hash
    ensures forall i | IsFirstMissing(hash.Keys, keys, i) :: r == Some(keys[i])
    ensures r.Some? ==> exists i :: IsFirstMissing(hash.Keys, keys, i) && keys[i] == r.value
  {
    if keys == [] then None
    else if keys[0] !in hash then
      assert IsFirstMissing(hash.Keys, keys, 0);
      Some(keys[0])
    else
      var r := FirstMissing(hash, keys[1..]);
      assert forall i | IsFirstMissing(hash.Keys, keys, i) :: IsFirstMissing(hash.Keys, keys[1..], i - 1);
      assert forall i | IsFirstMissing(hash.Keys, keys[1..], i) :: IsFirstMissing(hash.Keys, keys, i + 1);
      r
  }

  /** `validate_presence_of_keys_and_values`: walks the key list, stops at the first miss. */
  method ValidatePresenceOfKeys(hash: map<Key, string>, keys: seq<Key>) returns (missing: Option<Key>)
    ensures missing.None? <==> forall i | 0 <= i < |keys| :: keys[i] in hash
    ensures missing.Some? ==> exists i :: IsFirstMissing(hash.Keys, keys, i) && keys[i] == missing.value
    ensures missing == FirstMissing(hash, keys)
  {
    for i := 0 to |keys|
      invariant forall j | 0 <= j < i :: keys[j] in hash
    {
      if keys[i] !in hash {
        assert IsFirstMissing(hash.Keys, keys, i);
        return Some(keys[i]);
      }
    }
    return None;
  }

  // ---------------------------------------------------------------------------
  // clean_quotes
  // ---------------------------------------------------------------------------

  /** `gsub('"', '')`: every quote character removed. */
  function StripQuotes(s: string): (r: string)
    ensures QuoteFree(r)
    ensures QuoteFree(s) ==> r == s
    ensures |r| <= |s|
  {
    if s == [] then []
    else (if s[0] == '"' then [] else [s[0]]) + StripQuotes(s[1..])
  }

  lemma {:induction false} StripQuotesAppend(a: string, b: string)
    ensures StripQuotes(a + b) == StripQuotes(a) + StripQuotes(b)
  {
    if a == [] {
      assert a + b == b;
    } else {
      assert (a + b)[0] == a[0];
      assert (a + b)[1..] == a[1..] + b;
      StripQuotesAppend(a[1..], b);
    }
  }

  /** Unquoting a quoted quote-free text gives the text back. */
  lemma StripQuotesOfQuote(c: string)
    requires QuoteFree(c)
    ensures StripQuotes(Quote(c)) == c
  {
    var q := "\"";
    assert StripQuotes(q) == [] by {
      assert q[1..] == [];
    }
    assert Quote(c) == q + (c + q);
    StripQuotesAppend(q, c + q);
    StripQuotesAppend(c, q);
  }

  /** Unquoting a capture leaves exactly the text between the two delimiters. */
  lemma StripQuotesOfCapture(v: string)
    requires IsQuotedValue(v)
    ensures StripQuotes(v) == v[1..|v| - 1]
    ensures StripQuotes(v) != "" && QuoteFree(StripQuotes(v))
  {
    StripQuotesOfQuote(v[1..|v| - 1]);
  }

  /** Every value of the hash with its quotes removed. */
  function CleanAll(items: map<Key, string>): (r: map<Key, string>)
    ensures r.Keys == items.Keys
  {
    map k | k in items :: StripQuotes(items[k])
  }

  /** `clean_quotes`: removes the quotes from each value of the hash in turn. */
  method CleanQuotes(items: map<Key, string>) returns (cleaned: map<Key, string>)
    ensures cleaned.Keys == items.Keys
    ensures forall k | k in items :: cleaned[k] == StripQuotes(items[k])
    ensures cleaned == CleanAll(items)
  {
    cleaned := items;
    var pending := items.Keys;
    while pending != {}
      invariant pending <= items.Keys
      invariant cleaned.Keys == items.Keys
      invariant forall k | k in pending :: cleaned[k] == items[k]
      invariant forall k | k in items && k !in pending :: cleaned[k] == StripQuotes(items[k])
      decreases pending
    {
      var k :| k in pending;
      cleaned := cleaned[k := StripQuotes(cleaned[k])];
      pending := pending - {k};
    }
  }

  // ---------------------------------------------------------------------------
  // parse
  // ---------------------------------------------------------------------------

  /** A value `Parse` can return: non-empty and without quotes. */
  predicate WellFormedValue(s: string) {
    s != "" && QuoteFree(s)
  }

  /** Every value in the cleaned hash of a scan is the text between its match's quotes. */
  lemma CleanedScan(ms: seq<Match>)
    requires forall m | m in ms :: IsQuotedValue(m.value)
    ensures forall k | k in ToHash(ms) :: WellFormedValue(CleanAll(ToHash(ms))[k])
  {
    var h := ToHash(ms);
    forall k | k in h ensures WellFormedValue(CleanAll(h)[k]) {
      assert Match(k, h[k]) in ms;
      StripQuotesOfCapture(h[k]);
    }
  }

  /** The mandatory-key check on a hash built from matches, in terms of the matches. */
  lemma MandatoryCheck(ms: seq<Match>)
    ensures var r := FirstMissing(ToHash(ms), Mandatory);
      && (r.Some? <==> exists i | 0 <= i < |Mandatory| :: Mandatory[i] !in KeysOf(ms))
      && (r.Some? ==> exists i :: IsFirstMissing(KeysOf(ms), Mandatory, i) && Mandatory[i] == r.value)
      && (r.None? ==> Id in ToHash(ms) && Ts in ToHash(ms) && Nonce in ToHash(ms) && Mac in ToHash(ms))
  {
    assert Mandatory[0] == Id && Mandatory[1] == Ts && Mandatory[2] == Nonce && Mandatory[3] == Mac;
  }

  /**
    Steps 2 to 4 of `parse` on the matches of the scan: build the hash,
    check the mandatory keys, unquote. A missing `ext` is `None` (Ruby's nil).
   */
  function FromMatches(ms: seq<Match>): (r: ParseResult)
    requires forall m | m in ms :: IsQuotedValue(m.value)
    ensures r.MissingKey? <==> exists i | 0 <= i < |Mandatory| :: Mandatory[i] !in KeysOf(ms)
    ensures r.MissingKey? ==> exists i :: IsFirstMissing(KeysOf(ms), Mandatory, i) && Mandatory[i] == r.key
    ensures r.Parsed? ==> WellFormedValue(r.id) && WellFormedValue(r.ts) && WellFormedValue(r.nonce)
                          && WellFormedValue(r.mac) && (r.ext.Some? ==> WellFormedValue(r.ext.value))
    ensures r.Parsed? ==> (r.ext.None? <==> Ext !in KeysOf(ms))
  {
    var results := ToHash(ms);
    MandatoryCheck(ms);
    match FirstMissing(results, Mandatory)
    case Some(k) => MissingKey(k)
    case None =>
      CleanedScan(ms);
      var cleaned := CleanAll(results);
      Parsed(cleaned[Id], cleaned[Ts], cleaned[Nonce],
             if Ext in cleaned then Some(cleaned[Ext]) else None, cleaned[Mac])
  }

  /** `parse`: the matches of the scan, turned into a result. */
  function Parse(header: string): (r: ParseResult)
    ensures r.MissingKey? <==> exists i | 0 <= i < |Mandatory| :: Mandatory[i] !in KeysOf(Scan(header))
    ensures r.MissingKey? ==> exists i :: IsFirstMissing(KeysOf(Scan(header)), Mandatory, i) && Mandatory[i] == r.key
    ensures r.Parsed? ==> WellFormedValue(r.id) && WellFormedValue(r.ts) && WellFormedValue(r.nonce)
                          && WellFormedValue(r.mac) && (r.ext.Some? ==> WellFormedValue(r.ext.value))
    ensures r.Parsed? ==> (r.ext.None? <==> Ext !in KeysOf(Scan(header)))
  {
    FromMatches(Scan(header))
  }
}
