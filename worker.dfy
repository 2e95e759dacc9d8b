/** The request-building rules of the Cloudflare worker around the signer:
    the six OAuth protocol parameters every request carries, the signature
    added to them in place, the three requests that are signed (the
    `users/me` lookup, the mentions query and the tweet post), the optional
    `reply` field of a tweet, and the reply loop of the scheduled run.

    The clock, the nonce, the language model, the network and HMAC-SHA1 are
    parameters: `nowMs` is `Date.now()`, `nonce` the random string, `complete`
    the model's raw answer to each reply attempt (`None` when the request
    throws), `post` whether the Twitter API accepts each reply post (`false`
    when it throws or answers with an error status). Both take the attempt
    number, so no two calls need answer alike. */
module Worker {
  import opened Wrappers
  import opened PercentEncoding
  import opened Text
  import opened KeyOrder
  import opened JsObject
  import opened OAuthSigner
  import opened Content

  /** The four credentials of the environment. */
  datatype Env = Env(apiKey: string, apiSecret: string, accessToken: string, accessSecret: string)

  const UsersMeUrl: string := "https://api.twitter.com/2/users/me"
  const TweetsUrl: string := "https://api.twitter.com/2/tweets"
  /** The fixed query of the mentions request, after its `?`. */
  const MentionsQuery: string := "max_results=10&tweet.fields=conversation_id,in_reply_to_user_id"
  const MaxRepliesPerCycle: nat := 3

  /** JavaScript truthiness of an optional string: `null` and `''` are
      false. */
  predicate Truthy(o: Option<string>) {
    o.Some? && o.value != []
  }

  /** The whole seconds of the clock reading, in decimal, without a
      leading zero. */
  function Timestamp(nowMs: nat): (ts: string)
    ensures |ts| >= 1 && (ts[0] == '0' ==> ts == "0")
    ensures forall i :: 0 <= i < |ts| ==> '0' <= ts[i] <= '9'
    ensures DecimalValue(ts) == nowMs / 1000
  {
    DecimalRoundTrip(nowMs / 1000);
    DecimalString(nowMs / 1000)
  }

  /** The object literal of protocol parameters, in source order. */
  function ProtocolParams(env: Env, nowMs: nat, nonce: string): Obj {
    [("oauth_consumer_key", env.apiKey), ("oauth_token", env.accessToken),
     ("oauth_signature_method", "HMAC-SHA1"), ("oauth_timestamp", Timestamp(nowMs)),
     ("oauth_nonce", nonce), ("oauth_version", "1.0")]
  }

  // ---------------------------------------------------------------------
  // The wire format, written out

  /** The protocol keys in ascending order, before and after the signature
      is added. */
  const SixKeys: seq<string> := ["oauth_consumer_key", "oauth_nonce", "oauth_signature_method",
                                 "oauth_timestamp", "oauth_token", "oauth_version"]
  const SevenKeys: seq<string> := ["oauth_consumer_key", "oauth_nonce", "oauth_signature",
                                   "oauth_signature_method", "oauth_timestamp", "oauth_token",
                                   "oauth_version"]

  /** The values belonging to `SixKeys` and to `SevenKeys`, position by
      position. */
  function SixValues(env: Env, ts: string, nonce: string): (vs: seq<string>)
    ensures |vs| == |SixKeys|
  {
    [env.apiKey, nonce, "HMAC-SHA1", ts, env.accessToken, "1.0"]
  }

  function SevenValues(signature: string, env: Env, ts: string, nonce: string): (vs: seq<string>)
    ensures |vs| == |SevenKeys|
  {
    [env.apiKey, nonce, signature, "HMAC-SHA1", ts, env.accessToken, "1.0"]
  }

  /** The normalised parameters of every signed request:
      `oauth_consumer_key=…&oauth_nonce=…&oauth_signature_method=HMAC-SHA1&…`. */
  function ProtocolParamString(env: Env, ts: string, nonce: string): string {
    var vs := SixValues(env, ts, nonce);
    Join(seq(|SixKeys|, i requires 0 <= i < |SixKeys| => ParamPair(SixKeys[i], vs[i])), "&")
  }

  /** What HMAC returns for a request. */
  function RequestSignature(hmac: Hmac, httpMethod: string, url: string, env: Env, ts: string, nonce: string): string {
    hmac(SigningKey(env.apiSecret, env.accessSecret),
         Join([UpperAscii(httpMethod), Encode(url), Encode(ProtocolParamString(env, ts, nonce))], "&"))
  }

  /** The header of every signed request:
      `OAuth oauth_consumer_key="…", oauth_nonce="…", oauth_signature="…", …`. */
  function RequestHeader(signature: string, env: Env, ts: string, nonce: string): string {
    var vs := SevenValues(signature, env, ts, nonce);
    "OAuth " + Join(seq(|SevenKeys|, i requires 0 <= i < |SevenKeys| => HeaderEntry(SevenKeys[i], vs[i])), ", ")
  }

  // ---------------------------------------------------------------------
  // The order of the protocol keys

  /** Two keys that agree up to a first differing character. */
  lemma LessAt(p: string, a: string, b: string)
    requires a != [] && b != [] && CodeUnitRank(a[0]) < CodeUnitRank(b[0])
    ensures Less(p + a, p + b)
  {
    LessCommonPrefix(p, a, b);
  }

  lemma ConsumerKeyBeforeNonce()
    ensures Less("oauth_consumer_key", "oauth_nonce")
  {
    assert "oauth_consumer_key" == "oauth_" + "consumer_key" && "oauth_nonce" == "oauth_" + "nonce";
    LessAt("oauth_", "consumer_key", "nonce");
  }

  lemma NonceBeforeSignature()
    ensures Less("oauth_nonce", "oauth_signature")
  {
    assert "oauth_nonce" == "oauth_" + "nonce" && "oauth_signature" == "oauth_" + "signature";
    LessAt("oauth_", "nonce", "signature");
  }

  lemma NonceBeforeSignatureMethod()
    ensures Less("oauth_nonce", "oauth_signature_method")
  {
    assert "oauth_nonce" == "oauth_" + "nonce" && "oauth_signature_method" == "oauth_" + "signature_method";
    LessAt("oauth_", "nonce", "signature_method");
  }

  lemma SignatureBeforeSignatureMethod()
    ensures Less("oauth_signature", "oauth_signature_method")
  {
    assert "oauth_signature_method" == "oauth_signature" + "_method";
    LessProperPrefix("oauth_signature", "_method");
  }

  lemma SignatureMethodBeforeTimestamp()
    ensures Less("oauth_signature_method", "oauth_timestamp")
  {
    assert "oauth_signature_method" == "oauth_" + "signature_method" && "oauth_timestamp" == "oauth_" + "timestamp";
    LessAt("oauth_", "signature_method", "timestamp");
  }

  lemma TimestampBeforeToken()
    ensures Less("oauth_timestamp", "oauth_token")
  {
    assert "oauth_timestamp" == "oauth_t" + "imestamp" && "oauth_token" == "oauth_t" + "oken";
    LessAt("oauth_t", "imestamp", "oken");
  }

  lemma TokenBeforeVersion()
    ensures Less("oauth_token", "oauth_version")
  {
    assert "oauth_token" == "oauth_" + "token" && "oauth_version" == "oauth_" + "version";
    LessAt("oauth_", "token", "version");
  }

  lemma SixKeysSorted()
    ensures StrictlySorted(SixKeys)
  {
    SevenKeysSorted();
    var k := SevenKeys;
    forall i, j | 0 <= i < j < |SixKeys| ensures Less(SixKeys[i], SixKeys[j]) {
      var i', j' := if i < 2 then i else i + 1, if j < 2 then j else j + 1;
      assert SixKeys[i] == k[i'] && SixKeys[j] == k[j'];
    }
  }

  /** `oauth_signature` is not among the six protocol keys. */
  lemma SignatureKeyIsNew()
    ensures forall j :: 0 <= j < |SixKeys| ==> SixKeys[j] != "oauth_signature"
  {
  }

  lemma SevenKeysSorted()
    ensures StrictlySorted(SevenKeys)
  {
    forall i | 0 <= i < |SevenKeys| - 1 ensures Less(SevenKeys[i], SevenKeys[i + 1]) {
      if i == 0 { ConsumerKeyBeforeNonce(); }
      else if i == 1 { NonceBeforeSignature(); }
      else if i == 2 { SignatureBeforeSignatureMethod(); }
      else if i == 3 { SignatureMethodBeforeTimestamp(); }
      else if i == 4 { TimestampBeforeToken(); }
      else { TokenBeforeVersion(); }
    }
    StrictlySortedByNeighbours(SevenKeys);
  }

  /** The keys of the protocol object, in source order. */
  lemma ProtocolKeys(env: Env, nowMs: nat, nonce: string)
    ensures Keys(ProtocolParams(env, nowMs, nonce))
         == ["oauth_consumer_key", "oauth_token", "oauth_signature_method",
             "oauth_timestamp", "oauth_nonce", "oauth_version"]
  {
  }

  /** Sorting the keys of the protocol object gives the six keys in the
      order written in `SixKeys`, whatever the credentials. */
  lemma ProtocolKeysSorted(env: Env, nowMs: nat, nonce: string)
    ensures SortedKeys(ProtocolParams(env, nowMs, nonce)) == SixKeys
  {
    var o := ProtocolParams(env, nowMs, nonce);
    ToMapDomain(o);
    ProtocolKeys(env, nowMs, nonce);
    SixKeysSorted();
    SortedUnique(SortedKeys(o), SixKeys);
  }

  /** The mapping of the protocol object holds the value of `SixValues`
      under each of `SixKeys`. */
  lemma ProtocolMapping(env: Env, nowMs: nat, nonce: string)
    ensures var m, vs := ToMap(ProtocolParams(env, nowMs, nonce)), SixValues(env, Timestamp(nowMs), nonce);
      forall i :: 0 <= i < |SixKeys| ==> SixKeys[i] in m && m[SixKeys[i]] == vs[i]
  {
    var o := ProtocolParams(env, nowMs, nonce);
    var m, vs := ToMap(o), SixValues(env, Timestamp(nowMs), nonce);
    forall i | 0 <= i < |SixKeys| ensures SixKeys[i] in m && m[SixKeys[i]] == vs[i] {
      if i == 0 { ToMapValue(o, 0); }
      else if i == 1 { ToMapValue(o, 4); }
      else if i == 2 { ToMapValue(o, 2); }
      else if i == 3 { ToMapValue(o, 3); }
      else if i == 4 { ToMapValue(o, 1); }
      else { ToMapValue(o, 5); }
    }
  }

  /** The signer sees exactly the written-out parameter string. */
  lemma ProtocolNormalized(env: Env, nowMs: nat, nonce: string)
    ensures NormalizedParams(Spread(ProtocolParams(env, nowMs, nonce), []))
         == ProtocolParamString(env, Timestamp(nowMs), nonce)
  {
    var o := ProtocolParams(env, nowMs, nonce);
    var m, vs := ToMap(o), SixValues(env, Timestamp(nowMs), nonce);
    ProtocolKeysSorted(env, nowMs, nonce);
    ProtocolMapping(env, nowMs, nonce);
    PairsOf(m, SixKeys, vs);
  }

  /** Adding the signature to the protocol object gives the seven keys of
      `SevenKeys`. */
  lemma SignedKeysSorted(env: Env, nowMs: nat, nonce: string, signature: string)
    ensures SortedKeys(Put(ProtocolParams(env, nowMs, nonce), "oauth_signature", signature)) == SevenKeys
  {
    ProtocolKeys(env, nowMs, nonce);
    SignedKeysOf(ProtocolParams(env, nowMs, nonce), signature);
  }

  /** The same, for any object listing the six protocol keys in source
      order, whatever its values. */
  lemma SignedKeysOf(o: Obj, signature: string)
    requires Keys(o) == ["oauth_consumer_key", "oauth_token", "oauth_signature_method",
                         "oauth_timestamp", "oauth_nonce", "oauth_version"]
    ensures SortedKeys(Put(o, "oauth_signature", signature)) == SevenKeys
  {
    var signed := Put(o, "oauth_signature", signature);
    assert Keys(signed) == Keys(o) + ["oauth_signature"];
    ToMapDomain(signed);
    SevenKeysSorted();
    SortedUnique(SortedKeys(signed), SevenKeys);
  }

  /** The signed object maps the seven keys to the values of
      `SevenValues`. */
  lemma SignedMapping(env: Env, nowMs: nat, nonce: string, signature: string)
    ensures var m := ToMap(Put(ProtocolParams(env, nowMs, nonce), "oauth_signature", signature));
      var vs := SevenValues(signature, env, Timestamp(nowMs), nonce);
      forall i :: 0 <= i < |SevenKeys| ==> SevenKeys[i] in m && m[SevenKeys[i]] == vs[i]
  {
    var o := ProtocolParams(env, nowMs, nonce);
    var m0, six := ToMap(o), SixValues(env, Timestamp(nowMs), nonce);
    var m := m0["oauth_signature" := signature];
    var vs := SevenValues(signature, env, Timestamp(nowMs), nonce);
    ProtocolMapping(env, nowMs, nonce);
    SignatureKeyIsNew();
    forall i | 0 <= i < |SevenKeys| ensures SevenKeys[i] in m && m[SevenKeys[i]] == vs[i] {
      if i != 2 {
        var j := if i < 2 then i else i - 1;
        assert SevenKeys[i] == SixKeys[j] && vs[i] == six[j];
      }
    }
  }

  /** After the signature is added, the header lists exactly the seven
      written-out entries. */
  lemma SignedProtocolHeader(env: Env, nowMs: nat, nonce: string, signature: string)
    ensures AuthorizationHeader(Put(ProtocolParams(env, nowMs, nonce), "oauth_signature", signature))
         == RequestHeader(signature, env, Timestamp(nowMs), nonce)
  {
    var signed := Put(ProtocolParams(env, nowMs, nonce), "oauth_signature", signature);
    var m, vs := ToMap(signed), SevenValues(signature, env, Timestamp(nowMs), nonce);
    SignedKeysSorted(env, nowMs, nonce, signature);
    SignedMapping(env, nowMs, nonce, signature);
    EntriesOf(m, SevenKeys, vs);
  }

  // ---------------------------------------------------------------------
  // The signed requests

  /** The common steps of the three requests: build the protocol object,
      sign it with no extra parameters, store the signature in it under
      `oauth_signature`, and build the header from the result. */
  method AuthorizeRequest(hmac: Hmac, httpMethod: string, url: string, env: Env, nowMs: nat, nonce: string)
    returns (signature: string, authHeader: string)
    ensures signature == RequestSignature(hmac, httpMethod, url, env, Timestamp(nowMs), nonce)
    ensures authHeader == RequestHeader(signature, env, Timestamp(nowMs), nonce)
  {
    var oauth := ProtocolParams(env, nowMs, nonce);
    signature := Signature(hmac, httpMethod, url, oauth, [], env.apiSecret, env.accessSecret);
    ProtocolNormalized(env, nowMs, nonce);
    oauth := Put(oauth, "oauth_signature", signature);
    authHeader := AuthorizationHeader(oauth);
    SignedProtocolHeader(env, nowMs, nonce, signature);
  }

  /** The `users/me` lookup: a signed GET of the fixed URL. */
  method UserLookupRequest(hmac: Hmac, env: Env, nowMs: nat, nonce: string) returns (url: string, authHeader: string)
    ensures url == UsersMeUrl
    ensures var ts := Timestamp(nowMs);
      authHeader == RequestHeader(RequestSignature(hmac, "GET", UsersMeUrl, env, ts, nonce), env, ts, nonce)
  {
    url := UsersMeUrl;
    var signature;
    signature, authHeader := AuthorizeRequest(hmac, "GET", url, env, nowMs, nonce);
  }

  function MentionsPath(userId: string): string {
    "https://api.twitter.com/2/users/" + userId + "/mentions"
  }

  lemma MentionsPathHasNoQuestionMark(userId: string)
    requires '?' !in userId
    ensures '?' !in MentionsPath(userId)
  {
    var p, q := "https://api.twitter.com/2/users/", "/mentions";
    assert forall i :: 0 <= i < |p| ==> p[i] != '?';
    assert forall i :: 0 <= i < |q| ==> q[i] != '?';
    assert MentionsPath(userId) == p + userId + q;
  }

  /** Whatever follows the `?`, the URL the signer sees is the path alone:
      the query, `since_id` included, never reaches the signature. */
  lemma SignedMentionsUrl(userId: string, query: string)
    requires '?' !in userId
    ensures Before(MentionsPath(userId) + "?" + query, '?') == MentionsPath(userId)
  {
    MentionsPathHasNoQuestionMark(userId);
    SplitAtFirst(MentionsPath(userId), '?', query);
  }

  /** The mentions query: the URL gets `&since_id=` only when a truthy
      `sinceId` is given, and the signature covers the URL up to the first
      `?`. */
  method MentionsRequest(hmac: Hmac, env: Env, userId: string, sinceId: Option<string>, nowMs: nat, nonce: string)
    returns (mentionsUrl: string, signedUrl: string, authHeader: string)
    ensures var base := MentionsPath(userId) + "?" + MentionsQuery;
      mentionsUrl == if Truthy(sinceId) then base + ("&since_id=" + sinceId.value) else base
    ensures '?' !in signedUrl && signedUrl <= mentionsUrl
    ensures |signedUrl| < |mentionsUrl| ==> mentionsUrl[|signedUrl|] == '?'
    ensures '?' !in userId ==> signedUrl == MentionsPath(userId)
    ensures var ts := Timestamp(nowMs);
      authHeader == RequestHeader(RequestSignature(hmac, "GET", signedUrl, env, ts, nonce), env, ts, nonce)
  {
    mentionsUrl := MentionsPath(userId) + "?" + MentionsQuery;
    if Truthy(sinceId) {
      mentionsUrl := mentionsUrl + ("&since_id=" + sinceId.value);
    }
    signedUrl := Before(mentionsUrl, '?');
    if '?' !in userId {
      var path := MentionsPath(userId);
      var query := mentionsUrl[|path| + 1..];
      assert mentionsUrl == path + "?" + query;
      SignedMentionsUrl(userId, query);
    }
    var signature;
    signature, authHeader := AuthorizeRequest(hmac, "GET", signedUrl, env, nowMs, nonce);
  }

  /** The JSON body of a post: `{ text }`, with `reply.in_reply_to_tweet_id`
      when the post answers a tweet. */
  datatype TweetBody = TweetBody(text: string, inReplyTo: Option<string>)

  /** The request of `postTweet`: a signed POST of the tweets URL and the
      body, which gets a reply field only for a truthy `replyToTweetId`. */
  method PrepareTweet(hmac: Hmac, env: Env, nowMs: nat, nonce: string, tweetContent: string,
                      replyToTweetId: Option<string>)
    returns (authHeader: string, body: TweetBody)
    ensures var ts := Timestamp(nowMs);
      authHeader == RequestHeader(RequestSignature(hmac, "POST", TweetsUrl, env, ts, nonce), env, ts, nonce)
    ensures body.text == tweetContent
    ensures body.inReplyTo.Some? <==> Truthy(replyToTweetId)
    ensures body.inReplyTo.Some? ==> body.inReplyTo == replyToTweetId
  {
    var signature;
    signature, authHeader := AuthorizeRequest(hmac, "POST", TweetsUrl, env, nowMs, nonce);
    body := TweetBody(tweetContent, None);
    if Truthy(replyToTweetId) {
      body := body.(inReplyTo := Some(replyToTweetId.value));
    }
  }

  // ---------------------------------------------------------------------
  // The reply loop of the scheduled run

  datatype Mention = Mention(id: string, text: string)

  /** What became of one mention. */
  datatype Outcome =
    | Replied(id: string, reply: string)
    | GenerationFailed(id: string)
    | PostFailed(id: string)

  function Min(a: nat, b: nat): nat {
    if a < b then a else b
  }

  /** The language model's raw answer to a reply request: the answer to
      attempt `i` for the mention text, `None` when `generateReply` throws.
      The attempt number lets every call answer differently, as a sampled
      model does. */
  type Completion = (nat, string) -> Option<string>

  /** Whether attempt `i` to post the text (as an answer to the tweet id,
      when one is given) returns rather than throws: each call is a fresh
      request, which may fail or be rate-limited independently. */
  type Poster = (nat, string, Option<string>) -> bool

  /** Attempt `i` of the loop body: generate the reply, clean it, and post
      it as an answer to the mention. Either exception ends this pass
      only. */
  function ReplyOutcome(complete: Completion, post: Poster, i: nat, m: Mention): (r: Outcome)
    ensures r.id == m.id
    ensures r.GenerationFailed? <==> complete(i, m.text).None?
    ensures r.Replied? <==> complete(i, m.text).Some? && post(i, Cleanup(complete(i, m.text).value), Some(m.id))
    ensures r.Replied? ==> r.reply == Cleanup(complete(i, m.text).value)
  {
    match complete(i, m.text)
    case None => GenerationFailed(m.id)
    case Some(raw) =>
      var reply := Cleanup(raw);
      if post(i, reply, Some(m.id)) then Replied(m.id, reply) else PostFailed(m.id)
  }

  /** The reply loop over the first three mentions, each pass in its own
      exception handler: exactly the first three mentions (or all, when
      there are fewer) are attempted, in order, and attempt `i` goes to
      mention `i` whatever became of the earlier attempts. */
  method ReplyToMentions(complete: Completion, post: Poster, mentions: seq<Mention>)
    returns (log: seq<Outcome>)
    ensures |log| == Min(MaxRepliesPerCycle, |mentions|)
    ensures forall i :: 0 <= i < |log| ==> log[i] == ReplyOutcome(complete, post, i, mentions[i])
  {
    var batch := mentions[..Min(MaxRepliesPerCycle, |mentions|)];
    log := [];
    var i := 0;
    while i < |batch|
      invariant 0 <= i <= |batch|
      invariant |log| == i
      invariant forall j :: 0 <= j < i ==> log[j] == ReplyOutcome(complete, post, j, batch[j])
    {
      var mention := batch[i];
      var outcome;
      var raw := complete(i, mention.text);
      if raw.None? {
        outcome := GenerationFailed(mention.id);
      } else {
        var reply := Cleanup(raw.value);
        var ok := post(i, reply, Some(mention.id));
        outcome := if ok then Replied(mention.id, reply) else PostFailed(mention.id);
      }
      log := log + [outcome];
      i := i + 1;
    }
  }

  /** The scheduled run: generate a tweet (`generated` is the model's raw
      answer, `None` when `generateTweet` throws), post it (`tweetPosted`
      tells whether that post returns), then answer the mentions. An
      exception from the first two steps reaches the outer `catch` and skips
      the replies; fetching mentions never throws (it answers `[]` instead),
      so `mentions` is its result. */
  method ScheduledCycle(generated: Option<string>, tweetPosted: bool, complete: Completion,
                        post: Poster, mentions: seq<Mention>)
    returns (posted: Option<string>, log: seq<Outcome>)
    ensures posted.Some? <==> generated.Some? && tweetPosted
    ensures posted.Some? ==> posted.value == Cleanup(generated.value)
    ensures posted.None? ==> log == []
    ensures posted.Some? ==> |log| == Min(MaxRepliesPerCycle, |mentions|)
    ensures forall i :: 0 <= i < |log| ==> log[i] == ReplyOutcome(complete, post, i, mentions[i])
  {
    posted, log := None, [];
    if generated.Some? {
      var tweet := Cleanup(generated.value);
      if tweetPosted {
        posted := Some(tweet);
        log := ReplyToMentions(complete, post, mentions);
      }
    }
  }
}
