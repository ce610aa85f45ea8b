/** BitSeal request signing (tscode/bitseal/BitSeal.ts): a request's method,
    path, query, body, timestamp and nonce are put into one canonical string,
    which the client signs with BRC-77 and the server verifies.

    Everything the module takes from the JavaScript runtime or the SDK is a
    parameter: the form-urlencoded parser behind `URLSearchParams`, `encodeURIComponent`,
    `toUpperCase`, SHA-256 of the UTF-8 body, the UTF-8 and base64 codecs
    (`Runtime`), and the BRC-77 signer and verifier. `undefined` and `null`
    arguments are `None`. */
module BitSeal {
  import opened Wrappers
  import opened Bytes
  import opened JsText

  /** A query parameter: name and value. */
  type Param = (JsString, JsString)

  /** The application/x-www-form-urlencoded parser of the URL Standard: the
      parameters of a string in input order. The empty string has none; a
      `?` is an ordinary code unit to it. */
  type FormParser = f: JsString -> seq<Param> | f([]) == [] witness (q: JsString) => []

  /** The code units `encodeURIComponent` can produce: the unreserved
      characters `A-Z a-z 0-9 - _ . ! ~ * ' ( )`, and `%` with hex digits. */
  predicate UriUnit(c: CodeUnit)
  {
    65 <= c <= 90 || 97 <= c <= 122 || 48 <= c <= 57 ||
    c == 45 || c == 95 || c == 46 || c == 33 || c == 126 || c == 42 || c == 39 || c == 40 || c == 41 ||
    c == 37
  }

  /** `encodeURIComponent`: only `UriUnit`s come out. */
  type UriEncoder = f: JsString -> JsString | forall s, i :: 0 <= i < |f(s)| ==> UriUnit(f(s)[i])
    witness (s: JsString) => []

  /** A SHA-256 digest. */
  type Digest = d: seq<byte> | |d| == 32 witness seq(32, i => 0)

  datatype Runtime = Runtime(
    parseForm: FormParser,
    encodeComponent: UriEncoder,
    toUpperCase: JsString -> JsString,
    sha256Utf8: JsString -> Digest,
    utf8: JsString -> seq<byte>,
    toBase64: seq<byte> -> JsString,
    fromBase64: JsString -> seq<byte>)

  // ---------------------------------------------------------------------
  // Sorting the parameters by name

  /** Names never decrease along `ps`. */
  predicate SortedByName(ps: seq<Param>)
  {
    forall i, j :: 0 <= i < j < |ps| ==> !Less(ps[j].0, ps[i].0)
  }

  /** The parameters of `ps` named `name`, in their order in `ps`. */
  function Named(ps: seq<Param>, name: JsString): seq<Param>
  {
    if ps == [] then []
    else if ps[0].0 == name then [ps[0]] + Named(ps[1..], name)
    else Named(ps[1..], name)
  }

  /** `p` placed before the first element whose name is not less than its own. */
  function InsertByName(p: Param, ps: seq<Param>): seq<Param>
  {
    if ps == [] then [p]
    else if Less(ps[0].0, p.0) then [ps[0]] + InsertByName(p, ps[1..])
    else [p] + ps
  }

  /** Inserting adds exactly `p`. */
  lemma {:induction false} InsertMultiset(p: Param, ps: seq<Param>)
    ensures multiset(InsertByName(p, ps)) == multiset(ps) + multiset{p}
  {
    if ps != [] && Less(ps[0].0, p.0) {
      InsertMultiset(p, ps[1..]);
      assert ps == [ps[0]] + ps[1..];
    }
  }

  /** Inserting `p` puts it ahead of every parameter of the same name. */
  lemma {:induction false} InsertNamed(p: Param, ps: seq<Param>, name: JsString)
    ensures Named(InsertByName(p, ps), name) == if p.0 == name then [p] + Named(ps, name) else Named(ps, name)
  {
    if ps != [] {
      if Less(ps[0].0, p.0) {
        InsertNamed(p, ps[1..], name);
        LessIrreflexive(p.0);
        var r := InsertByName(p, ps);
        assert r[0] == ps[0] && r[1..] == InsertByName(p, ps[1..]);
      } else {
        assert ([p] + ps)[1..] == ps;
      }
    }
  }

  /** Inserting keeps a lower bound that `p` and all of `ps` respect. */
  lemma {:induction false} InsertAbove(p: Param, ps: seq<Param>, low: JsString)
    requires !Less(p.0, low) && forall i :: 0 <= i < |ps| ==> !Less(ps[i].0, low)
    ensures forall i :: 0 <= i < |InsertByName(p, ps)| ==> !Less(InsertByName(p, ps)[i].0, low)
  {
    if ps != [] && Less(ps[0].0, p.0) {
      InsertAbove(p, ps[1..], low);
      var r := InsertByName(p, ps);
      assert r == [ps[0]] + InsertByName(p, ps[1..]);
    } else if ps != [] {
      var r := [p] + ps;
      assert forall i :: 1 <= i < |r| ==> r[i] == ps[i - 1];
    }
  }

  /** Inserting into a sorted list keeps it sorted. */
  lemma {:induction false} InsertSorted(p: Param, ps: seq<Param>)
    requires SortedByName(ps)
    ensures SortedByName(InsertByName(p, ps))
  {
    if ps == [] {
    } else if Less(ps[0].0, p.0) {
      assert SortedByName(ps[1..]) by {
        forall i, j | 0 <= i < j < |ps[1..]|
          ensures !Less(ps[1..][j].0, ps[1..][i].0)
        {
          assert ps[1..][i] == ps[i + 1] && ps[1..][j] == ps[j + 1];
        }
      }
      InsertSorted(p, ps[1..]);
      var t := InsertByName(p, ps[1..]);
      var r := [ps[0]] + t;
      assert InsertByName(p, ps) == r;
      LessAsymmetric(ps[0].0, p.0);
      forall j | 0 <= j < |ps[1..]|
        ensures !Less(ps[1..][j].0, ps[0].0)
      {
        assert ps[1..][j] == ps[j + 1];
      }
      InsertAbove(p, ps[1..], ps[0].0);
      forall i, j | 0 <= i < j < |r|
        ensures !Less(r[j].0, r[i].0)
      {
        if i == 0 {
          assert r[j] == t[j - 1];
        } else {
          assert r[i] == t[i - 1] && r[j] == t[j - 1];
        }
      }
    } else {
      var r := [p] + ps;
      forall i, j | 0 <= i < j < |r|
        ensures !Less(r[j].0, r[i].0)
      {
        if i == 0 {
          if j > 1 {
            NotLessTransitive(p.0, ps[0].0, ps[j - 1].0);
          }
        } else {
          assert r[i] == ps[i - 1] && r[j] == ps[j - 1];
        }
      }
    }
  }

  /** `tuples.sort((a, b) => (a[0] < b[0] ? -1 : a[0] > b[0] ? 1 : 0))`:
      a stable sort by name, as `Array.prototype.sort` is. The result is
      sorted by name, holds the same parameters, and keeps the input order
      among parameters of equal name. */
  function SortByName(ps: seq<Param>): (r: seq<Param>)
    ensures SortedByName(r)
    ensures multiset(r) == multiset(ps)
    ensures forall name :: Named(r, name) == Named(ps, name)
  {
    if ps == [] then []
    else
      var rest := SortByName(ps[1..]);
      InsertSorted(ps[0], rest);
      InsertMultiset(ps[0], rest);
      assert ps == [ps[0]] + ps[1..];
      assert forall name :: Named(InsertByName(ps[0], rest), name) == Named(ps, name) by {
        forall name
          ensures Named(InsertByName(ps[0], rest), name) == Named(ps, name)
        {
          InsertNamed(ps[0], rest, name);
        }
      }
      InsertByName(ps[0], rest)
  }

  // ---------------------------------------------------------------------
  // canonicalQueryString, bodyHashHex, buildCanonicalString (lines 21-52)

  /** One `name=value` item, both parts URI-encoded. */
  function QueryItem(encode: UriEncoder, p: Param): JsString
  {
    encode(p.0) + [EqualsSign] + encode(p.1)
  }

  function QueryItems(encode: UriEncoder, ps: seq<Param>): (r: seq<JsString>)
    ensures |r| == |ps| && forall i :: 0 <= i < |ps| ==> r[i] == QueryItem(encode, ps[i])
  {
    if ps == [] then [] else [QueryItem(encode, ps[0])] + QueryItems(encode, ps[1..])
  }

  /** `canonicalQueryString`: empty for an absent or empty query; otherwise
      one leading `?` is dropped, the rest is parsed, sorted by name and
      written back as `name=value` items joined with `&`. */
  function CanonicalQueryString(rt: Runtime, query: Option<JsString>): JsString
  {
    if query.None? || query.value == [] then []
    else
      Join(QueryItems(rt.encodeComponent, SortByName(SearchParams(rt, StripMark(query.value)))), Ampersand)
  }

  /** The string after one leading `?`, if any, is dropped. */
  function StripMark(q: JsString): JsString
  {
    if q != [] && q[0] == QuestionMark then q[1..] else q
  }

  /** What `new URLSearchParams(q).forEach` visits: the constructor drops one
      leading `?` and parses the rest as form-urlencoded, so a second `?`
      belongs to the first name. */
  function SearchParams(rt: Runtime, q: JsString): seq<Param>
  {
    rt.parseForm(StripMark(q))
  }

  /** An absent or empty query, a lone `?` and `??` give the empty string. */
  lemma CanonicalQueryEmpty(rt: Runtime)
    ensures CanonicalQueryString(rt, None) == []
    ensures CanonicalQueryString(rt, Some([])) == []
    ensures CanonicalQueryString(rt, Some([QuestionMark])) == []
    ensures CanonicalQueryString(rt, Some([QuestionMark, QuestionMark])) == []
  {
    assert [QuestionMark][1..] == [];
    assert [QuestionMark, QuestionMark][1..] == [QuestionMark] + [];
  }

  /** A leading `?` makes no difference unless the query then starts with
      two more: the code drops one and the constructor the next. */
  lemma CanonicalQueryIgnoresLeadingMark(rt: Runtime, q: JsString)
    requires !(|q| >= 2 && q[0] == QuestionMark && q[1] == QuestionMark)
    ensures CanonicalQueryString(rt, Some([QuestionMark] + q)) == CanonicalQueryString(rt, Some(q))
  {
    assert ([QuestionMark] + q)[1..] == q;
  }

  /** Exactly two leading `?` are dropped before parsing: one by the code,
      one by the `URLSearchParams` constructor. A third reaches the
      form-urlencoded parser, so `???a=1` yields the name `?a`. */
  lemma CanonicalQueryDropsTwoMarks(rt: Runtime, q: JsString)
    ensures CanonicalQueryString(rt, Some([QuestionMark, QuestionMark] + q)) ==
      Join(QueryItems(rt.encodeComponent, SortByName(rt.parseForm(q))), Ampersand)
  {
    assert ([QuestionMark, QuestionMark] + q)[1..] == [QuestionMark] + q;
    assert ([QuestionMark] + q)[1..] == q;
  }

  /** The canonical query lists the parsed parameters one `name=value` item
      each, sorted by name with equal names in input order, and can be read
      back: splitting it at `&` gives the items, and splitting an item at `=`
      gives the encoded name and value. */
  lemma CanonicalQueryItems(rt: Runtime, query: JsString)
    requires query != [] && SearchParams(rt, StripMark(query)) != []
    ensures var sorted := SortByName(SearchParams(rt, StripMark(query)));
      var items := Split(CanonicalQueryString(rt, Some(query)), Ampersand);
      SortedByName(sorted) &&
      multiset(sorted) == multiset(SearchParams(rt, StripMark(query))) &&
      |items| == |sorted| &&
      forall i :: 0 <= i < |items| ==>
        Split(items[i], EqualsSign) == [rt.encodeComponent(sorted[i].0), rt.encodeComponent(sorted[i].1)]
  {
    var enc := rt.encodeComponent;
    var sorted := SortByName(SearchParams(rt, StripMark(query)));
    var items := QueryItems(enc, sorted);
    forall i | 0 <= i < |items|
      ensures Ampersand !in items[i]
      ensures Split(items[i], EqualsSign) == [enc(sorted[i].0), enc(sorted[i].1)]
    {
      EncodedHasNo(enc, sorted[i].0, Ampersand);
      EncodedHasNo(enc, sorted[i].1, Ampersand);
      EncodedHasNo(enc, sorted[i].0, EqualsSign);
      EncodedHasNo(enc, sorted[i].1, EqualsSign);
      SplitAfter(enc(sorted[i].0), EqualsSign, enc(sorted[i].1));
      SplitNoSeparator(enc(sorted[i].1), EqualsSign);
    }
    SplitJoin(items, Ampersand);
  }

  /** `encodeURIComponent` output never holds a code unit outside `UriUnit`. */
  lemma EncodedHasNo(encode: UriEncoder, s: JsString, c: CodeUnit)
    requires !UriUnit(c)
    ensures c !in encode(s)
  {
    forall i | 0 <= i < |encode(s)|
      ensures encode(s)[i] != c
    {
    }
  }

  /** The canonical query never holds a line break. */
  lemma CanonicalQueryOneLine(rt: Runtime, query: Option<JsString>)
    ensures NewLine !in CanonicalQueryString(rt, query)
  {
    if query.Some? && query.value != [] {
      var q := StripMark(query.value);
      var items := QueryItems(rt.encodeComponent, SortByName(SearchParams(rt, q)));
      forall i | 0 <= i < |items|
        ensures NewLine !in items[i]
      {
        var p := SortByName(SearchParams(rt, q))[i];
        EncodedHasNo(rt.encodeComponent, p.0, NewLine);
        EncodedHasNo(rt.encodeComponent, p.1, NewLine);
      }
      JoinUnits(items, Ampersand, NewLine);
    }
  }

  /** `bodyHashHex`: empty for an absent or empty body, otherwise the SHA-256
      digest of the body's UTF-8 bytes as 64 lower-case hex digits. */
  function BodyHashHex(rt: Runtime, body: Option<JsString>): (r: JsString)
    ensures body.None? || body.value == [] ==> r == []
    ensures body.Some? && body.value != [] ==>
      |r| == 64 && (forall i :: 0 <= i < |r| ==> IsHexDigit(r[i])) && FromHex(r) == rt.sha256Utf8(body.value)
  {
    if body.None? || body.value == [] then []
    else
      HexRoundTrip(rt.sha256Utf8(body.value));
      ToHex(rt.sha256Utf8(body.value))
  }

  /** `buildCanonicalString`: six fields joined by line breaks. */
  function BuildCanonicalString(rt: Runtime, httpMethod: JsString, uriPath: JsString, query: Option<JsString>,
                                body: Option<JsString>, timestamp: JsString, nonce: JsString): JsString
  {
    Join([rt.toUpperCase(httpMethod), uriPath, CanonicalQueryString(rt, query), BodyHashHex(rt, body), timestamp, nonce],
         NewLine)
  }

  /** The canonical string splits back into its six fields, in the order
      upper-cased method, path, canonical query, body hash, timestamp, nonce,
      when the caller-supplied fields hold no line break. */
  lemma CanonicalFields(rt: Runtime, httpMethod: JsString, uriPath: JsString, query: Option<JsString>,
                        body: Option<JsString>, timestamp: JsString, nonce: JsString)
    requires NewLine !in rt.toUpperCase(httpMethod) && NewLine !in uriPath
    requires NewLine !in timestamp && NewLine !in nonce
    ensures Split(BuildCanonicalString(rt, httpMethod, uriPath, query, body, timestamp, nonce), NewLine) ==
      [rt.toUpperCase(httpMethod), uriPath, CanonicalQueryString(rt, query), BodyHashHex(rt, body), timestamp, nonce]
  {
    CanonicalQueryOneLine(rt, query);
    var fields := [rt.toUpperCase(httpMethod), uriPath, CanonicalQueryString(rt, query), BodyHashHex(rt, body), timestamp, nonce];
    forall i | 0 <= i < |fields|
      ensures NewLine !in fields[i]
    {
      if i == 3 {
        forall j | 0 <= j < |fields[3]|
          ensures fields[3][j] != NewLine
        {
        }
      }
    }
    SplitJoin(fields, NewLine);
  }

  /** Without that condition the fields are not recoverable: a line break
      moved between timestamp and nonce yields the same canonical string,
      so one signature covers both header pairs: timestamp "1\n2" with
      nonce "3", and timestamp "1" with nonce "2\n3". */
  lemma CanonicalAmbiguousWithLineBreaks(rt: Runtime, httpMethod: JsString, uriPath: JsString,
                                         query: Option<JsString>, body: Option<JsString>)
    ensures BuildCanonicalString(rt, httpMethod, uriPath, query, body, [49, 10, 50], [51]) ==
            BuildCanonicalString(rt, httpMethod, uriPath, query, body, [49], [50, 10, 51])
  {
    var head := [rt.toUpperCase(httpMethod), uriPath, CanonicalQueryString(rt, query), BodyHashHex(rt, body)];
    JoinAppend(head, [[49, 10, 50], [51]], NewLine);
    JoinAppend(head, [[49], [50, 10, 51]], NewLine);
    assert head + [[49, 10, 50], [51]] ==
      [rt.toUpperCase(httpMethod), uriPath, CanonicalQueryString(rt, query), BodyHashHex(rt, body), [49, 10, 50], [51]];
    assert head + [[49], [50, 10, 51]] ==
      [rt.toUpperCase(httpMethod), uriPath, CanonicalQueryString(rt, query), BodyHashHex(rt, body), [49], [50, 10, 51]];
    assert Join([[49, 10, 50], [51]], NewLine) == Join([[49], [50, 10, 51]], NewLine);
  }

  /** Joining two non-empty lists of parts is joining each and putting one
      separator between. */
  lemma {:induction false} JoinAppend(a: seq<JsString>, b: seq<JsString>, sep: CodeUnit)
    requires |a| >= 1 && |b| >= 1
    ensures Join(a + b, sep) == Join(a, sep) + [sep] + Join(b, sep)
  {
    if |a| == 1 {
      assert (a + b)[1..] == b;
    } else {
      assert (a + b)[1..] == a[1..] + b;
      JoinAppend(a[1..], b, sep);
    }
  }

  // ---------------------------------------------------------------------
  // signRequest and verifyRequest (lines 54-98)

  type Headers = map<JsString, JsString>

  /** "X-BKSA-" */
  const HeaderPrefix: JsString := [88, 45, 66, 75, 83, 65, 45]
  /** "X-BKSA-Protocol" */
  const ProtocolHeader: JsString := HeaderPrefix + [80, 114, 111, 116, 111, 99, 111, 108]
  /** "X-BKSA-Sig" */
  const SigHeader: JsString := HeaderPrefix + [83, 105, 103]
  /** "X-BKSA-Timestamp" */
  const TimestampHeader: JsString := HeaderPrefix + [84, 105, 109, 101, 115, 116, 97, 109, 112]
  /** "X-BKSA-Nonce" */
  const NonceHeader: JsString := HeaderPrefix + [78, 111, 110, 99, 101]
  /** "BitSeal" */
  const ProtocolName: JsString := [66, 105, 116, 83, 101, 97, 108]

  /** The optional `opts` of `signRequest`. */
  datatype SignOptions = SignOptions(timestamp: Option<JsString>, nonce: Option<JsString>)

  /** `x ?? fallback`. */
  function OrElse(x: Option<JsString>, fallback: JsString): JsString
  {
    if x.Some? then x.value else fallback
  }

  /** `signRequest`: the client's BRC-77 signature (`sign`, bound to the
      client key and the server's public key) over the UTF-8 canonical
      string, in four headers. `now` is `Date.now().toString()` and
      `freshNonce` is `randomNonce()`, used only when `opts` lacks them. */
  function SignRequest(rt: Runtime, sign: seq<byte> -> seq<byte>, httpMethod: JsString, uriPath: JsString,
                       query: Option<JsString>, body: Option<JsString>, opts: SignOptions,
                       now: JsString, freshNonce: JsString): (h: Headers)
    ensures h.Keys == {ProtocolHeader, SigHeader, TimestampHeader, NonceHeader}
    ensures h[ProtocolHeader] == ProtocolName
    ensures h[TimestampHeader] == OrElse(opts.timestamp, now)
    ensures h[NonceHeader] == OrElse(opts.nonce, freshNonce)
    ensures h[SigHeader] ==
      rt.toBase64(sign(rt.utf8(BuildCanonicalString(rt, httpMethod, uriPath, query, body,
                                                    h[TimestampHeader], h[NonceHeader]))))
  {
    var timestamp := OrElse(opts.timestamp, now);
    var nonce := OrElse(opts.nonce, freshNonce);
    var canonical := BuildCanonicalString(rt, httpMethod, uriPath, query, body, timestamp, nonce);
    var sig := rt.toBase64(sign(rt.utf8(canonical)));
    map[ProtocolHeader := ProtocolName, SigHeader := sig, TimestampHeader := timestamp, NonceHeader := nonce]
  }

  /** The value of a header, if present. */
  function Header(h: Headers, name: JsString): Option<JsString>
  {
    if name in h then Some(h[name]) else None
  }

  /** JavaScript truthiness of a `string | undefined`. */
  predicate Truthy(v: Option<JsString>)
  {
    v.Some? && v.value != []
  }

  /** What the BRC-77 verifier does with a message and signature: returns a
      verdict, or throws. */
  datatype VerifyOutcome = Returned(valid: bool) | Threw

  /** The message and signature bytes `verifyRequest` hands to the verifier,
      or `None` when it returns false before calling it. */
  function VerifierCall(rt: Runtime, httpMethod: JsString, uriPath: JsString, query: Option<JsString>,
                        body: Option<JsString>, headers: Headers): Option<(seq<byte>, seq<byte>)>
  {
    if Header(headers, ProtocolHeader) != Some(ProtocolName) then None
    else
      var timestamp := Header(headers, TimestampHeader);
      var nonce := Header(headers, NonceHeader);
      var sig := Header(headers, SigHeader);
      if !Truthy(timestamp) || !Truthy(nonce) || !Truthy(sig) then None
      else
        var canonical := BuildCanonicalString(rt, httpMethod, uriPath, query, body, timestamp.value, nonce.value);
        Some((rt.utf8(canonical), rt.fromBase64(sig.value)))
  }

  /** `verifyRequest`: `verify` is BRC-77 verification bound to the server's
      private key; an exception from it becomes false. */
  function VerifyRequest(rt: Runtime, verify: (seq<byte>, seq<byte>) -> VerifyOutcome, httpMethod: JsString,
                         uriPath: JsString, query: Option<JsString>, body: Option<JsString>, headers: Headers): bool
  {
    match VerifierCall(rt, httpMethod, uriPath, query, body, headers)
    case None => false
    case Some((msg, sig)) =>
      match verify(msg, sig)
      case Returned(valid) => valid
      case Threw => false
  }

  /** The verifier is not consulted exactly when the protocol header is not
      `BitSeal` or the timestamp, nonce or signature header is missing or
      empty; the request is then refused, whatever the verifier would say. */
  lemma VerifyRejectsEarly(rt: Runtime, verify: (seq<byte>, seq<byte>) -> VerifyOutcome, httpMethod: JsString,
                           uriPath: JsString, query: Option<JsString>, body: Option<JsString>, headers: Headers)
    ensures VerifierCall(rt, httpMethod, uriPath, query, body, headers).None? <==>
      Header(headers, ProtocolHeader) != Some(ProtocolName) ||
      !Truthy(Header(headers, TimestampHeader)) || !Truthy(Header(headers, NonceHeader)) ||
      !Truthy(Header(headers, SigHeader))
    ensures VerifierCall(rt, httpMethod, uriPath, query, body, headers).None? ==>
      !VerifyRequest(rt, verify, httpMethod, uriPath, query, body, headers)
  {
  }

  /** A request is accepted exactly when the verifier is called and returns
      true; a verifier that throws yields false, never an exception. */
  lemma VerifyAcceptsOnlyValid(rt: Runtime, verify: (seq<byte>, seq<byte>) -> VerifyOutcome, httpMethod: JsString,
                               uriPath: JsString, query: Option<JsString>, body: Option<JsString>, headers: Headers)
    ensures VerifyRequest(rt, verify, httpMethod, uriPath, query, body, headers) <==>
      var call := VerifierCall(rt, httpMethod, uriPath, query, body, headers);
      call.Some? && verify(call.value.0, call.value.1) == Returned(true)
  {
  }

  /** Signing then verifying the same request: `verifyRequest` rebuilds the
      very canonical string that was signed (the headers carry the timestamp
      and nonce verbatim) and hands the verifier that message with the
      signature decoded from base64. So with a base64 codec that round-trips
      and a verifier that accepts the signer's signatures, the request verifies. */
  lemma SignThenVerify(rt: Runtime, sign: seq<byte> -> seq<byte>, verify: (seq<byte>, seq<byte>) -> VerifyOutcome,
                       httpMethod: JsString, uriPath: JsString, query: Option<JsString>, body: Option<JsString>,
                       opts: SignOptions, now: JsString, freshNonce: JsString)
    requires OrElse(opts.timestamp, now) != [] && OrElse(opts.nonce, freshNonce) != []
    requires SignRequest(rt, sign, httpMethod, uriPath, query, body, opts, now, freshNonce)[SigHeader] != []
    ensures var msg := rt.utf8(BuildCanonicalString(rt, httpMethod, uriPath, query, body,
                                                     OrElse(opts.timestamp, now), OrElse(opts.nonce, freshNonce)));
      var headers := SignRequest(rt, sign, httpMethod, uriPath, query, body, opts, now, freshNonce);
      VerifierCall(rt, httpMethod, uriPath, query, body, headers) == Some((msg, rt.fromBase64(rt.toBase64(sign(msg))))) &&
      (rt.fromBase64(rt.toBase64(sign(msg))) == sign(msg) && verify(msg, sign(msg)) == Returned(true) ==>
        VerifyRequest(rt, verify, httpMethod, uriPath, query, body, headers))
  {
    var headers := SignRequest(rt, sign, httpMethod, uriPath, query, body, opts, now, freshNonce);
    assert Header(headers, ProtocolHeader) == Some(ProtocolName);
    assert Header(headers, TimestampHeader) == Some(OrElse(opts.timestamp, now));
    assert Header(headers, NonceHeader) == Some(OrElse(opts.nonce, freshNonce));
    assert Header(headers, SigHeader) == Some(headers[SigHeader]);
  }

  /** `??` keeps an explicitly empty timestamp or nonce, which `signRequest`
      signs but `verifyRequest` refuses: such headers never verify. */
  lemma EmptyOptionNeverVerifies(rt: Runtime, sign: seq<byte> -> seq<byte>,
                                 verify: (seq<byte>, seq<byte>) -> VerifyOutcome,
                                 httpMethod: JsString, uriPath: JsString, query: Option<JsString>, body: Option<JsString>,
                                 opts: SignOptions, now: JsString, freshNonce: JsString)
    requires opts.timestamp == Some([]) || opts.nonce == Some([])
    ensures !VerifyRequest(rt, verify, httpMethod, uriPath, query, body,
                           SignRequest(rt, sign, httpMethod, uriPath, query, body, opts, now, freshNonce))
  {
    var headers := SignRequest(rt, sign, httpMethod, uriPath, query, body, opts, now, freshNonce);
    assert Header(headers, TimestampHeader) == Some(OrElse(opts.timestamp, now));
    assert Header(headers, NonceHeader) == Some(OrElse(opts.nonce, freshNonce));
  }
}
