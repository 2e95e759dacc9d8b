/** The OAuth 1.0a request signer of the worker (`generateOAuthSignature`)
    and the `Authorization` header built from its result.

    The signature base is `METHOD&enc(url)&enc(params)` where `params` is one
    `enc(k)=enc(v)` pair per key of the merged object, in ascending order of
    the raw key, joined with `&` (section 3.4.1 of RFC 5849, with the
    differences listed in the README). The signing key is
    `enc(consumerSecret)&enc(tokenSecret)` (section 3.4.2 of RFC 5849).
    HMAC-SHA1 and the base64 step are the parameter `hmac`. */
module OAuthSigner {
  import opened Wrappers
  import opened PercentEncoding
  import opened Text
  import opened KeyOrder
  import opened JsObject

  /** HMAC-SHA1 of the message under the key, base64-encoded. */
  type Hmac = (string, string) -> string

  /** One pair of the normalised parameter string: `enc(k)=enc(v)`. */
  function ParamPair(k: string, v: string): string {
    Encode(k) + "=" + Encode(v)
  }

  /** One entry of the header: `enc(k)="enc(v)"`. */
  function HeaderEntry(k: string, v: string): string {
    Encode(k) + "=\"" + Encode(v) + "\""
  }

  /** `Object.keys(o).sort()`: every key once, ascending. */
  function SortedKeys(o: Obj): (ks: seq<string>)
    ensures |ks| == |o|
    ensures StrictlySorted(ks)
    ensures forall k :: k in ks <==> k in ToMap(o)
  {
    KeysDistinct(o);
    SortStrictlySorted(Keys(o));
    ToMapDomain(o);
    Sort(Keys(o))
  }

  function Pairs(m: map<string, string>, ks: seq<string>): (r: seq<string>)
    requires forall k :: k in ks ==> k in m
    ensures |r| == |ks|
    ensures forall i :: 0 <= i < |ks| ==> r[i] == ParamPair(ks[i], m[ks[i]])
  {
    seq(|ks|, i requires 0 <= i < |ks| => ParamPair(ks[i], m[ks[i]]))
  }

  function Entries(m: map<string, string>, ks: seq<string>): (r: seq<string>)
    requires forall k :: k in ks ==> k in m
    ensures |r| == |ks|
    ensures forall i :: 0 <= i < |ks| ==> r[i] == HeaderEntry(ks[i], m[ks[i]])
  {
    seq(|ks|, i requires 0 <= i < |ks| => HeaderEntry(ks[i], m[ks[i]]))
  }

  /** The normalised parameter string (`sortedParams`). */
  function NormalizedParams(all: Obj): string {
    Join(Pairs(ToMap(all), SortedKeys(all)), "&")
  }

  /** The signature base string (`signatureBase`). */
  function SignatureBase(httpMethod: string, url: string, all: Obj): string {
    Join([UpperAscii(httpMethod), Encode(url), Encode(NormalizedParams(all))], "&")
  }

  /** The HMAC key (`signingKey`). */
  function SigningKey(consumerSecret: string, tokenSecret: string): string {
    Encode(consumerSecret) + "&" + Encode(tokenSecret)
  }

  /** The signature of a request: the HMAC of the signature base of the
      merged parameters under the signing key. */
  function Signature(hmac: Hmac, httpMethod: string, url: string, oauth: Obj, params: Obj,
                     consumerSecret: string, tokenSecret: string): string
  {
    hmac(SigningKey(consumerSecret, tokenSecret), SignatureBase(httpMethod, url, Spread(oauth, params)))
  }

  /** The `Authorization` header: `OAuth ` and then one `enc(k)="enc(v)"`
      entry per key in ascending key order, separated by `, `. */
  function AuthorizationHeader(o: Obj): string {
    "OAuth " + Join(Entries(ToMap(o), SortedKeys(o)), ", ")
  }

  // ---------------------------------------------------------------------
  // The normalised parameter string

  /** Splitting the normalised string on `&` gives exactly one field per
      key, in ascending key order, and each field splits on `=` into the
      encoded key and the encoded value. */
  lemma NormalizedParamsFields(all: Obj)
    requires all != []
    ensures var ks, m, f := SortedKeys(all), ToMap(all), Split(NormalizedParams(all), '&');
      && |f| == |all|
      && (forall i :: 0 <= i < |f| ==> f[i] == ParamPair(ks[i], m[ks[i]]))
      && (forall i :: 0 <= i < |f| ==> Split(f[i], '=') == [Encode(ks[i]), Encode(m[ks[i]])])
  {
    var ks, m := SortedKeys(all), ToMap(all);
    var parts := Pairs(m, ks);
    forall i | 0 <= i < |parts|
      ensures '&' !in parts[i]
      ensures Split(parts[i], '=') == [Encode(ks[i]), Encode(m[ks[i]])]
    {
      PairSplit(ks[i], m[ks[i]]);
    }
    assert "&" == ['&'] + [];
    SplitJoin(parts, '&', []);
  }

  lemma PairSplit(k: string, v: string)
    ensures '&' !in ParamPair(k, v)
    ensures Split(ParamPair(k, v), '=') == [Encode(k), Encode(v)]
  {
    EncodeHasNoSeparators(k);
    EncodeHasNoSeparators(v);
    assert ParamPair(k, v) == Encode(k) + ['='] + Encode(v);
    SplitAtFirst(Encode(k), '=', Encode(v));
    SplitNoSeparator(Encode(v), '=');
  }

  /** The normalised string depends only on the key-value mapping, not on
      the order the keys were inserted in. */
  lemma NormalizedParamsOrderIndependent(a: Obj, b: Obj)
    requires ToMap(a) == ToMap(b)
    ensures NormalizedParams(a) == NormalizedParams(b)
  {
    SortedUnique(SortedKeys(a), SortedKeys(b));
  }

  /** A pair determines its key and its value. */
  lemma PairInjective(k1: string, v1: string, k2: string, v2: string)
    requires ParamPair(k1, v1) == ParamPair(k2, v2)
    ensures k1 == k2 && v1 == v2
  {
    PairSplit(k1, v1);
    PairSplit(k2, v2);
    EncodeInjective(k1, k2);
    EncodeInjective(v1, v2);
  }

  /** Two objects whose sorted keys agree and whose values agree key by key
      stand for the same mapping. */
  lemma SameMappingBySortedKeys(a: Obj, b: Obj)
    requires SortedKeys(a) == SortedKeys(b)
    requires forall i :: 0 <= i < |a| ==> ToMap(a)[SortedKeys(a)[i]] == ToMap(b)[SortedKeys(a)[i]]
    ensures ToMap(a) == ToMap(b)
  {
    var ks, ma, mb := SortedKeys(a), ToMap(a), ToMap(b);
    forall k | k in ma ensures k in mb && ma[k] == mb[k] {
      var i :| 0 <= i < |ks| && ks[i] == k;
    }
  }

  /** Equal non-empty normalised strings list the same keys with the same
      values. */
  lemma NonEmptyNormalizedInjective(a: Obj, b: Obj)
    requires a != [] && b != []
    requires NormalizedParams(a) == NormalizedParams(b)
    ensures ToMap(a) == ToMap(b)
  {
    var ka, kb := SortedKeys(a), SortedKeys(b);
    var ma, mb := ToMap(a), ToMap(b);
    NormalizedParamsFields(a);
    NormalizedParamsFields(b);
    forall i | 0 <= i < |ka| ensures ka[i] == kb[i] && ma[ka[i]] == mb[kb[i]] {
      PairInjective(ka[i], ma[ka[i]], kb[i], mb[kb[i]]);
    }
    assert ka == kb;
    SameMappingBySortedKeys(a, b);
  }

  /** Different mappings never share a normalised string. */
  lemma NormalizedParamsInjective(a: Obj, b: Obj)
    requires NormalizedParams(a) == NormalizedParams(b)
    ensures ToMap(a) == ToMap(b)
  {
    if a != [] && b != [] {
      NonEmptyNormalizedInjective(a, b);
    } else if a != [] {
      NormalizedParamsFields(a);
      EmptyNormalized(b);
    } else if b != [] {
      NormalizedParamsFields(b);
      EmptyNormalized(a);
    }
  }

  /** The pairs of a mapping listed by keys whose values are known. */
  lemma PairsOf(m: map<string, string>, ks: seq<string>, vs: seq<string>)
    requires |ks| == |vs|
    requires forall i :: 0 <= i < |ks| ==> ks[i] in m && m[ks[i]] == vs[i]
    ensures Pairs(m, ks) == seq(|ks|, i requires 0 <= i < |ks| => ParamPair(ks[i], vs[i]))
  {
  }

  /** The header entries of a mapping listed by keys whose values are
      known. */
  lemma EntriesOf(m: map<string, string>, ks: seq<string>, vs: seq<string>)
    requires |ks| == |vs|
    requires forall i :: 0 <= i < |ks| ==> ks[i] in m && m[ks[i]] == vs[i]
    ensures Entries(m, ks) == seq(|ks|, i requires 0 <= i < |ks| => HeaderEntry(ks[i], vs[i]))
  {
  }

  /** The normalised string of an object without keys is empty, and splits
      into one empty field. */
  lemma EmptyNormalized(o: Obj)
    requires o == []
    ensures Split(NormalizedParams(o), '&') == [[]]
  {
  }

  /** Merging an object with the empty `params` the worker passes keeps its
      normalised string. */
  lemma NoExtraParams(oauth: Obj)
    ensures NormalizedParams(Spread(oauth, [])) == NormalizedParams(oauth)
  {
  }

  // ---------------------------------------------------------------------
  // The signature base and the signing key

  lemma UpperKeepsAmpersand(s: string)
    ensures '&' in UpperAscii(s) <==> '&' in s
  {
    if '&' in UpperAscii(s) {
      var i :| 0 <= i < |s| && UpperAscii(s)[i] == '&';
    }
    if '&' in s {
      var i :| 0 <= i < |s| && s[i] == '&';
      assert UpperAscii(s)[i] == '&';
    }
  }

  /** Splitting the base on `&` gives exactly three fields: the upper-cased
      method, the encoded URL and the encoded parameter string. */
  lemma SignatureBaseSplit(httpMethod: string, url: string, all: Obj)
    requires '&' !in httpMethod
    ensures Split(SignatureBase(httpMethod, url, all), '&')
      == [UpperAscii(httpMethod), Encode(url), Encode(NormalizedParams(all))]
  {
    var x, y, z := UpperAscii(httpMethod), Encode(url), Encode(NormalizedParams(all));
    UpperKeepsAmpersand(httpMethod);
    EncodeHasNoSeparators(url);
    EncodeHasNoSeparators(NormalizedParams(all));
    assert [x, y, z][1..] == [y, z] && [y, z][1..] == [z];
    assert Join([y, z], "&") == y + "&" + z;
    assert Join([x, y, z], "&") == x + "&" + (y + "&" + z);
    assert SignatureBase(httpMethod, url, all) == x + ['&'] + (y + ['&'] + z);
    SplitAtFirst(x, '&', y + ['&'] + z);
    SplitAtFirst(y, '&', z);
    SplitNoSeparator(z, '&');
  }

  /** Of the three fields of the base, the second decodes to the URL and the
      third to the normalised parameter string. */
  lemma SignatureBaseFields(httpMethod: string, url: string, all: Obj)
    requires '&' !in httpMethod
    ensures |Split(SignatureBase(httpMethod, url, all), '&')| == 3
    ensures Split(SignatureBase(httpMethod, url, all), '&')[0] == UpperAscii(httpMethod)
    ensures Decode(Split(SignatureBase(httpMethod, url, all), '&')[1]) == Some(url)
    ensures Decode(Split(SignatureBase(httpMethod, url, all), '&')[2]) == Some(NormalizedParams(all))
  {
    SignatureBaseSplit(httpMethod, url, all);
    DecodeEncode(url);
    DecodeEncode(NormalizedParams(all));
  }

  /** Equal bases come from the same upper-cased method, the same URL and
      the same parameter mapping. */
  lemma SignatureBaseInjective(m1: string, u1: string, a1: Obj, m2: string, u2: string, a2: Obj)
    requires '&' !in m1 && '&' !in m2
    requires SignatureBase(m1, u1, a1) == SignatureBase(m2, u2, a2)
    ensures UpperAscii(m1) == UpperAscii(m2) && u1 == u2 && ToMap(a1) == ToMap(a2)
  {
    SignatureBaseSplit(m1, u1, a1);
    SignatureBaseSplit(m2, u2, a2);
    EncodeInjective(u1, u2);
    EncodeInjective(NormalizedParams(a1), NormalizedParams(a2));
    NormalizedParamsInjective(a1, a2);
  }

  /** The signing key holds exactly one `&`: it splits into exactly the two
      encoded secrets. */
  lemma SigningKeyFields(consumerSecret: string, tokenSecret: string)
    ensures Split(SigningKey(consumerSecret, tokenSecret), '&')
      == [Encode(consumerSecret), Encode(tokenSecret)]
  {
    EncodeHasNoSeparators(consumerSecret);
    EncodeHasNoSeparators(tokenSecret);
    assert SigningKey(consumerSecret, tokenSecret) == Encode(consumerSecret) + ['&'] + Encode(tokenSecret);
    SplitAtFirst(Encode(consumerSecret), '&', Encode(tokenSecret));
    SplitNoSeparator(Encode(tokenSecret), '&');
  }

  /** Two different pairs of secrets give two different signing keys. */
  lemma SigningKeyInjective(cs1: string, ts1: string, cs2: string, ts2: string)
    requires SigningKey(cs1, ts1) == SigningKey(cs2, ts2)
    ensures cs1 == cs2 && ts1 == ts2
  {
    SigningKeyFields(cs1, ts1);
    SigningKeyFields(cs2, ts2);
    EncodeInjective(cs1, cs2);
    EncodeInjective(ts1, ts2);
  }

  /** The signature depends only on the upper-cased method, the URL, the
      merged mapping and the secrets: not on the insertion order of either
      object. */
  lemma SignatureOrderIndependent(hmac: Hmac, httpMethod: string, url: string,
                                  oauth1: Obj, params1: Obj, oauth2: Obj, params2: Obj,
                                  cs: string, ts: string)
    requires ToMap(oauth1) + ToMap(params1) == ToMap(oauth2) + ToMap(params2)
    ensures Signature(hmac, httpMethod, url, oauth1, params1, cs, ts)
         == Signature(hmac, httpMethod, url, oauth2, params2, cs, ts)
  {
    NormalizedParamsOrderIndependent(Spread(oauth1, params1), Spread(oauth2, params2));
  }

  // ---------------------------------------------------------------------
  // The Authorization header

  lemma QuotedShape(x: string, y: string)
    requires '"' !in x && ',' !in x && '"' !in y && ',' !in y
    ensures ',' !in x + "=\"" + y + "\""
    ensures Split(x + "=\"" + y + "\"", '"') == [x + "=", y, []]
  {
    var a: string := x + "=";
    var tail: string := y + ['"'];
    assert x + "=\"" + y + "\"" == a + ['"'] + tail;
    SplitAtFirst(a, '"', tail);
    assert tail == y + ['"'] + [];
    SplitAtFirst(y, '"', []);
    assert Split([], '"') == [[]];
  }

  lemma EntrySplit(k: string, v: string)
    ensures ',' !in HeaderEntry(k, v)
    ensures Split(HeaderEntry(k, v), '"') == [Encode(k) + "=", Encode(v), []]
  {
    EncodeHasNoSeparators(k);
    EncodeHasNoSeparators(v);
    QuotedShape(Encode(k), Encode(v));
  }

  /** The header is `OAuth ` followed by one entry per key, in ascending key
      order, separated by `, `: splitting the rest on `,` gives the first
      entry and then each further entry behind one space, and each entry
      holds its encoded value between exactly two double quotes. */
  lemma AuthorizationHeaderFields(o: Obj)
    requires o != []
    ensures var h := AuthorizationHeader(o);
      |h| >= 6 && h[..6] == "OAuth "
    ensures var ks, m, f := SortedKeys(o), ToMap(o), Split(AuthorizationHeader(o)[6..], ',');
      && |f| == |o|
      && f[0] == HeaderEntry(ks[0], m[ks[0]])
      && (forall i :: 1 <= i < |f| ==> f[i] == " " + HeaderEntry(ks[i], m[ks[i]]))
      && (forall i :: 0 <= i < |f| ==>
            Split(HeaderEntry(ks[i], m[ks[i]]), '"') == [Encode(ks[i]) + "=", Encode(m[ks[i]]), []])
  {
    var ks, m := SortedKeys(o), ToMap(o);
    var parts := Entries(m, ks);
    forall i | 0 <= i < |parts|
      ensures ',' !in parts[i]
      ensures Split(parts[i], '"') == [Encode(ks[i]) + "=", Encode(m[ks[i]]), []]
    {
      EntrySplit(ks[i], m[ks[i]]);
    }
    assert ", " == [','] + " ";
    SplitJoin(parts, ',', " ");
    var h := AuthorizationHeader(o);
    assert h[6..] == Join(parts, ", ");
  }

  /** The header depends only on the key-value mapping. */
  lemma AuthorizationHeaderOrderIndependent(a: Obj, b: Obj)
    requires ToMap(a) == ToMap(b)
    ensures AuthorizationHeader(a) == AuthorizationHeader(b)
  {
    SortedUnique(SortedKeys(a), SortedKeys(b));
  }

  /** Adding `oauth_signature` to the protocol object gives the header one
      more entry, carrying the signature. */
  lemma SignedHeaderCarriesSignature(oauth: Obj, signature: string)
    requires "oauth_signature" !in ToMap(oauth)
    ensures var signed := Put(oauth, "oauth_signature", signature);
      && |SortedKeys(signed)| == |oauth| + 1
      && "oauth_signature" in SortedKeys(signed)
      && ToMap(signed)["oauth_signature"] == signature
  {
    ToMapDomain(oauth);
  }
}
