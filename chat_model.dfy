/**
 * The chat assistant's transcript logic, as values: the messages sent to the
 * generative-language endpoint, how a reply becomes the answer shown, the backoff
 * between retries, the Firestore document path, and the effect of the save and the
 * load on the document store. The `Chat` class runs these step by step; the
 * properties of a send are lemmas about `SendFrom`, which follows the recursive
 * retry call by call.
 */
module ChatModel {
  import opened Wrappers

  const MAX_RETRIES: nat := 5

  const APOLOGY_TEXT: string := "I apologize, I ran into an issue finding a suitable response."

  const ERROR_TEXT: string :=
    "Sorry, I'm currently unable to connect to the assistant. Please try again later or contact our support team directly."

  const GREETING: string :=
    "Hello! I am Asotabsicon AI Assistant. How can I help you find your next property or investment opportunity today? You can ask about our featured listings or general market trends."

  const DOC_ID: string := "ai_assistant"

  const TEMP_USER: string := "temp_user"

  // ---------------------------------------------------------------------------
  // transcript and reply values
  // ---------------------------------------------------------------------------

  datatype Role = User | Model

  /** `{role, parts: [{text}]}`. */
  datatype Message = Message(role: Role, text: string)

  /** A grounding source that survived the filter: both fields are non-empty. */
  datatype Source = Source(uri: string, title: string)

  /** `attribution.web`, whose fields may be absent. */
  datatype Web = Web(uri: Option<string>, title: Option<string>)

  datatype Attribution = Attribution(web: Option<Web>)

  /** A candidate: `content.parts[0].text` and `groundingMetadata.groundingAttributions`,
      either of which may be absent. */
  datatype Candidate = Candidate(text: Option<string>, attributions: Option<seq<Attribution>>)

  /** The parsed reply body; absent `candidates` is the empty list. */
  datatype Generated = Generated(candidates: seq<Candidate>)

  /** What one `fetch` produced: a rejection, or a status with a body that parses as
      JSON (`Some`) or does not (`None`). */
  datatype Reply = NetworkFailure | HttpReply(status: int, body: Option<Generated>)

  /** The text shown for a reply and the sources listed under it. */
  datatype Answer = Answer(text: string, sources: seq<Source>)

  /** One bubble of the chat window: text, sender class, sources. */
  datatype Bubble = Bubble(text: string, sender: string, sources: seq<Source>)

  /** JavaScript truthiness of an optional string. */
  predicate Truthy(s: Option<string>) {
    s.Some? && s.value != ""
  }

  /** `response.ok`. */
  predicate Ok(status: int) {
    200 <= status <= 299
  }

  // ---------------------------------------------------------------------------
  // grounding sources
  // ---------------------------------------------------------------------------

  /** The attribution passes `.filter(source => source.uri && source.title)` after the map. */
  predicate Kept(a: Attribution) {
    a.web.Some? && Truthy(a.web.value.uri) && Truthy(a.web.value.title)
  }

  function SourceOf(a: Attribution): Source
    requires Kept(a)
  {
    Source(a.web.value.uri.value, a.web.value.title.value)
  }

  /** The map to `{uri: web?.uri, title: web?.title}` followed by the filter. */
  function ExtractSources(atts: seq<Attribution>): (r: seq<Source>)
    ensures |r| <= |atts|
  {
    if atts == [] then []
    else (if Kept(atts[0]) then [SourceOf(atts[0])] else []) + ExtractSources(atts[1..])
  }

  /** Every source comes from a kept attribution, so none has an empty field. */
  lemma {:induction false} ExtractSourcesSound(atts: seq<Attribution>, s: Source)
    requires s in ExtractSources(atts)
    ensures s.uri != "" && s.title != ""
    ensures exists i :: 0 <= i < |atts| && Kept(atts[i]) && s == SourceOf(atts[i])
  {
    if !(Kept(atts[0]) && s == SourceOf(atts[0])) {
      ExtractSourcesSound(atts[1..], s);
      var i :| 0 <= i < |atts[1..]| && Kept(atts[1..][i]) && s == SourceOf(atts[1..][i]);
      assert atts[1..][i] == atts[i + 1];
    }
  }

  /** Extraction works attribution by attribution, so the order is kept. */
  lemma {:induction false} ExtractSourcesAppend(a: seq<Attribution>, b: seq<Attribution>)
    ensures ExtractSources(a + b) == ExtractSources(a) + ExtractSources(b)
  {
    if a == [] {
      assert a + b == b;
    } else {
      var head := if Kept(a[0]) then [SourceOf(a[0])] else [];
      assert (a + b)[0] == a[0];
      assert (a + b)[1..] == a[1..] + b;
      calc {
        ExtractSources(a + b);
        head + ExtractSources(a[1..] + b);
        { ExtractSourcesAppend(a[1..], b); }
        head + (ExtractSources(a[1..]) + ExtractSources(b));
        (head + ExtractSources(a[1..])) + ExtractSources(b);
        ExtractSources(a) + ExtractSources(b);
      }
    }
  }

  /** Every kept attribution yields a source. */
  lemma {:induction false} ExtractSourcesComplete(atts: seq<Attribution>, i: nat)
    requires i < |atts| && Kept(atts[i])
    ensures SourceOf(atts[i]) in ExtractSources(atts)
  {
    if i > 0 {
      assert atts[1..][i - 1] == atts[i];
      ExtractSourcesComplete(atts[1..], i - 1);
    }
  }

  /** When every attribution has both fields, the sources are the attributions, one for one. */
  lemma {:induction false} ExtractSourcesAllKept(atts: seq<Attribution>)
    requires forall i :: 0 <= i < |atts| ==> Kept(atts[i])
    ensures |ExtractSources(atts)| == |atts|
    ensures forall i :: 0 <= i < |atts| ==> ExtractSources(atts)[i] == SourceOf(atts[i])
  {
    if atts != [] {
      ExtractSourcesAllKept(atts[1..]);
    }
  }

  /** When no attribution has both fields, there are no sources. */
  lemma {:induction false} ExtractSourcesNoneKept(atts: seq<Attribution>)
    requires forall i :: 0 <= i < |atts| ==> !Kept(atts[i])
    ensures ExtractSources(atts) == []
  {
    if atts != [] {
      ExtractSourcesNoneKept(atts[1..]);
    }
  }

  /** The answer for an ok reply whose body parsed: the first candidate's text with its
      sources when that text is non-empty, else the apology with no sources. */
  function AnswerOf(body: Generated): (r: Answer)
    ensures r.text != ""
    ensures r.sources != [] ==> |body.candidates| > 0 && Truthy(body.candidates[0].text)
  {
    if |body.candidates| > 0 && Truthy(body.candidates[0].text) then
      var c := body.candidates[0];
      Answer(c.text.value, CandidateSources(c))
    else
      Answer(APOLOGY_TEXT, [])
  }

  /** The sources of a candidate: its grounding attributions with both fields, in order;
      none when it has no attributions. */
  function CandidateSources(c: Candidate): seq<Source> {
    if c.attributions.Some? then ExtractSources(c.attributions.value) else []
  }

  lemma AnswerOfCases(body: Generated)
    ensures var r := AnswerOf(body);
      && (|body.candidates| > 0 && Truthy(body.candidates[0].text) ==>
            && r.text == body.candidates[0].text.value
            && r.sources == CandidateSources(body.candidates[0]))
      && (!(|body.candidates| > 0 && Truthy(body.candidates[0].text)) ==>
            r == Answer(APOLOGY_TEXT, []))
      && (forall s :: s in r.sources ==> s.uri != "" && s.title != "")
  {
    var r := AnswerOf(body);
    forall s | s in r.sources ensures s.uri != "" && s.title != "" {
      ExtractSourcesSound(body.candidates[0].attributions.value, s);
    }
  }

  /** The answer a terminal reply leaves: a rejection, a status that is not ok and a body
      that does not parse all take the error path. */
  function Outcome(reply: Reply): (r: Answer)
    ensures r.text != ""
    ensures reply.NetworkFailure? || !Ok(reply.status) || reply.body.None? ==> r == Answer(ERROR_TEXT, [])
    ensures reply.HttpReply? && Ok(reply.status) && reply.body.Some? ==>
      var cs := reply.body.value.candidates;
      if |cs| > 0 && Truthy(cs[0].text) then r == Answer(cs[0].text.value, CandidateSources(cs[0]))
      else r == Answer(APOLOGY_TEXT, [])
  {
    if reply.NetworkFailure? || !Ok(reply.status) || reply.body.None? then Answer(ERROR_TEXT, [])
    else AnswerOf(reply.body.value)
  }

  // ---------------------------------------------------------------------------
  // backoff
  // ---------------------------------------------------------------------------

  function Pow2(n: nat): (r: nat)
    ensures r >= 1
  {
    if n == 0 then 1 else 2 * Pow2(n - 1)
  }

  /** `Math.pow(2, retryCount) * 1000 + Math.random() * 1000`, with the random part an
      integer number of milliseconds in [0, 1000).
      The delay before retry `retryCount + 1` lies in [2^retryCount * 1000,
      2^retryCount * 1000 + 1000). */
  function BackoffDelay(retryCount: nat, jitter: int): (d: int)
    ensures JitterInRange(jitter) ==> Pow2(retryCount) * 1000 <= d < Pow2(retryCount) * 1000 + 1000
  {
    Pow2(retryCount) * 1000 + jitter
  }

  predicate JitterInRange(jitter: int) {
    0 <= jitter < 1000
  }

  /** The windows do not overlap: every delay is longer than every earlier one. */
  lemma {:induction false} DelayGrows(i: nat, j: nat, ji: int, jj: int)
    requires i < j && JitterInRange(ji) && JitterInRange(jj)
    ensures BackoffDelay(i, ji) < BackoffDelay(j, jj)
  {
    Pow2Grows(i, j);
  }

  lemma {:induction false} Pow2Grows(i: nat, j: nat)
    requires i < j
    ensures 2 * Pow2(i) <= Pow2(j)
    decreases j
  {
    if j > i + 1 {
      Pow2Grows(i, j - 1);
    }
  }

  // ---------------------------------------------------------------------------
  // document paths
  // ---------------------------------------------------------------------------

  /** The environment that the page's Firebase set-up leaves on `window`: whether `db` and
      `auth` are there, `appId`, and the signed-in user's uid. */
  datatype Host = Host(db: bool, auth: bool, appId: Option<string>, currentUser: Option<string>)

  /** `${window.appId}` inside a template literal. */
  function AppIdText(appId: Option<string>): string {
    if appId.Some? then appId.value else "undefined"
  }

  /** `window.db && window.auth && window.appId`. */
  predicate Configured(host: Host) {
    host.db && host.auth && Truthy(host.appId)
  }

  /** `doc(collection(db, "artifacts/{appId}/users/{uid}/chats"), "ai_assistant")`.
      The user id can be read back from the path: it sits between the application's
      prefix and the fixed suffix. */
  function ChatDocPath(appId: string, uid: string): (p: string)
    ensures |p| == |UserPrefix(appId)| + |uid| + |CHATS_SUFFIX|
    ensures p[..|UserPrefix(appId)|] == UserPrefix(appId) && p[|p| - |CHATS_SUFFIX|..] == CHATS_SUFFIX
    ensures p[|UserPrefix(appId)|..|p| - |CHATS_SUFFIX|] == uid
  {
    var p := UserPrefix(appId) + uid + CHATS_SUFFIX;
    assert p[..|UserPrefix(appId)|] == UserPrefix(appId);
    assert p[|UserPrefix(appId)|..|p| - |CHATS_SUFFIX|] == uid;
    assert p[|p| - |CHATS_SUFFIX|..] == CHATS_SUFFIX;
    p
  }

  /** The collection path up to the user id. */
  function UserPrefix(appId: string): string {
    "artifacts/" + appId + "/users/"
  }

  const CHATS_SUFFIX: string := "/chats/" + DOC_ID

  /** For one application, different users get different documents. */
  lemma ChatDocPathInjective(appId: string, u: string, v: string)
    requires ChatDocPath(appId, u) == ChatDocPath(appId, v)
    ensures u == v
  {
  }

  /** The document the page reads and writes: the signed-in user's when the
      environment is complete, else the shared `temp_user` one. */
  function LoadPath(host: Host): (p: string)
    ensures Configured(host) && host.currentUser.Some? ==>
      p == ChatDocPath(host.appId.value, host.currentUser.value)
    ensures !(Configured(host) && host.currentUser.Some?) ==>
      p == ChatDocPath(AppIdText(host.appId), TEMP_USER)
  {
    if Configured(host) && host.currentUser.Some? then
      ChatDocPath(host.appId.value, host.currentUser.value)
    else
      ChatDocPath(AppIdText(host.appId), TEMP_USER)
  }

  // ---------------------------------------------------------------------------
  // String.prototype.trim
  // ---------------------------------------------------------------------------

  /** The characters `trim` removes: ECMAScript WhiteSpace and LineTerminator. */
  predicate IsJsWhitespace(c: char) {
    || c == '\t' || c == '\n' || c == '\U{000B}' || c == '\U{000C}' || c == '\r'
    || c == ' ' || c == '\U{00A0}' || c == '\U{1680}'
    || ('\U{2000}' <= c <= '\U{200A}')
    || c == '\U{2028}' || c == '\U{2029}' || c == '\U{202F}' || c == '\U{205F}'
    || c == '\U{3000}' || c == '\U{FEFF}'
  }

  predicate AllWhitespace(s: string) {
    forall i :: 0 <= i < |s| ==> IsJsWhitespace(s[i])
  }

  function TrimStart(s: string): (r: string)
    ensures |r| <= |s| && r == s[|s| - |r|..]
    ensures AllWhitespace(s[..|s| - |r|])
    ensures r == [] || !IsJsWhitespace(r[0])
  {
    if s == [] || !IsJsWhitespace(s[0]) then s
    else
      var r := TrimStart(s[1..]);
      assert s[..|s| - |r|] == [s[0]] + s[1..][..|s[1..]| - |r|];
      r
  }

  function TrimEnd(s: string): (r: string)
    ensures |r| <= |s| && r == s[..|r|]
    ensures AllWhitespace(s[|r|..])
    ensures r == [] || !IsJsWhitespace(r[|r| - 1])
  {
    if s == [] || !IsJsWhitespace(s[|s| - 1]) then s
    else
      var r := TrimEnd(s[..|s| - 1]);
      assert s[|r|..] == s[..|s| - 1][|r|..] + [s[|s| - 1]];
      r
  }

  /** `s.trim()`. */
  function Trim(s: string): string {
    TrimEnd(TrimStart(s))
  }

  /** `r` is `s` from index `i`, with only whitespace before and after it. */
  predicate Middle(s: string, i: nat, r: string) {
    && i + |r| <= |s| && r == s[i..i + |r|]
    && AllWhitespace(s[..i]) && AllWhitespace(s[i + |r|..])
  }

  /** The trimmed text is the middle of `s`, between a whitespace run at the start and
      one at the end. */
  lemma TrimMiddle(s: string)
    ensures Middle(s, |s| - |TrimStart(s)|, Trim(s))
  {
    var t := TrimStart(s);
    WhitespaceAround(s, t, TrimEnd(t));
  }

  /** The slice arithmetic behind `TrimMiddle`, for any `t` that `s` ends with after
      whitespace and any `r` that `t` begins with before whitespace. */
  lemma WhitespaceAround(s: string, t: string, r: string)
    requires |t| <= |s| && t == s[|s| - |t|..] && AllWhitespace(s[..|s| - |t|])
    requires |r| <= |t| && r == t[..|r|] && AllWhitespace(t[|r|..])
    ensures Middle(s, |s| - |t|, r)
  {
    var i := |s| - |t|;
    assert s[i + |r|..] == t[|r|..];
  }

  lemma AllWhitespaceConcat(a: string, b: string)
    requires AllWhitespace(a) && AllWhitespace(b)
    ensures AllWhitespace(a + b)
  {
    forall i | 0 <= i < |a + b| ensures IsJsWhitespace((a + b)[i]) {
      if i < |a| {
        assert (a + b)[i] == a[i];
      } else {
        assert (a + b)[i] == b[i - |a|];
      }
    }
  }

  /** The trimmed text is empty exactly when the input is all whitespace, and otherwise
      neither starts nor ends with whitespace. */
  lemma TrimEmptyIff(s: string)
    ensures Trim(s) == [] <==> AllWhitespace(s)
    ensures Trim(s) != [] ==> !IsJsWhitespace(Trim(s)[0]) && !IsJsWhitespace(Trim(s)[|Trim(s)| - 1])
  {
    var t := TrimStart(s);
    var r := TrimEnd(t);
    if r == [] {
      assert t[|r|..] == t;
      assert s == s[..|s| - |t|] + t;
      AllWhitespaceConcat(s[..|s| - |t|], t);
    }
    if r != [] {
      assert r[0] == t[0];
    }
  }

  // ---------------------------------------------------------------------------
  // sending
  // ---------------------------------------------------------------------------

  /** The history after some sends: `n` copies of `x`. */
  function Repeat<T>(x: T, n: nat): (r: seq<T>)
    ensures |r| == n && forall i :: 0 <= i < n ==> r[i] == x
  {
    if n == 0 then [] else [x] + Repeat(x, n - 1)
  }

  /** The reply to the call with this retry count re-invokes the send. */
  predicate IsRetry(reply: Reply, retryCount: nat) {
    reply.HttpReply? && reply.status == 429 && retryCount < MAX_RETRIES
  }

  /** What a send did: the history it leaves, the `contents` of every request in order,
      whether the busy flag was set while each request was in flight, the delays slept
      before each retry, and the answer shown at the end. */
  datatype SendRun = SendRun(
    history: seq<Message>,
    requests: seq<seq<Message>>,
    busyDuring: seq<bool>,
    delays: seq<int>,
    answer: Answer)

  /** The oracle for one send: `replies[k]` is what the call with retry count `k` gets
      from `fetch`, `jitters[k]` the random part of the delay after it. */
  predicate Oracle(replies: seq<Reply>, jitters: seq<int>) {
    && |replies| > MAX_RETRIES
    && |jitters| >= MAX_RETRIES
    && forall k :: 0 <= k < |jitters| ==> JitterInRange(jitters[k])
  }

  /** `sendMessageToAPI(message, retryCount)` with the history `history` and the busy flag
      `busy`, call by call. Every call pushes the user message before it fetches; a
      retry sleeps and re-invokes, and the caller's `finally` clears the busy flag while
      the re-invocation is in flight; every other reply pushes the model message. */
  function SendFrom(history: seq<Message>, message: string, replies: seq<Reply>, jitters: seq<int>,
                    retryCount: nat, busy: bool): (r: SendRun)
    requires Oracle(replies, jitters) && retryCount <= MAX_RETRIES
    ensures |r.requests| == |r.busyDuring| == |r.delays| + 1
    ensures retryCount + |r.delays| <= MAX_RETRIES
    decreases MAX_RETRIES - retryCount
  {
    var withUser := history + [Message(User, message)];
    var reply := replies[retryCount];
    if IsRetry(reply, retryCount) then
      var rest := SendFrom(withUser, message, replies, jitters, retryCount + 1, false);
      SendRun(rest.history, [withUser] + rest.requests, [busy] + rest.busyDuring,
              [BackoffDelay(retryCount, jitters[retryCount])] + rest.delays, rest.answer)
    else
      var answer := Outcome(reply);
      SendRun(withUser + [Message(Model, answer.text)], [withUser], [busy], [], answer)
  }

  /** A send from `retryCount` that makes `k` retries leaves `k + 1` copies of the user
      message followed by one model message carrying the answer's text. */
  lemma {:induction false} SendHistory(history: seq<Message>, message: string, replies: seq<Reply>,
                                       jitters: seq<int>, retryCount: nat, busy: bool)
    requires Oracle(replies, jitters) && retryCount <= MAX_RETRIES
    ensures var r := SendFrom(history, message, replies, jitters, retryCount, busy);
      r.history == history + Repeat(Message(User, message), |r.delays| + 1) + [Message(Model, r.answer.text)]
    decreases MAX_RETRIES - retryCount
  {
    var u := Message(User, message);
    var withUser := history + [u];
    var r := SendFrom(history, message, replies, jitters, retryCount, busy);
    if IsRetry(replies[retryCount], retryCount) {
      var rest := SendFrom(withUser, message, replies, jitters, retryCount + 1, false);
      assert r.history == rest.history && r.answer == rest.answer && |r.delays| == |rest.delays| + 1;
      SendHistory(withUser, message, replies, jitters, retryCount + 1, false);
      RepeatCons(history, u, |rest.delays| + 1);
    } else {
      assert r.history == withUser + [Message(Model, r.answer.text)] && r.delays == [];
      RepeatCons(history, u, 0);
    }
  }

  /** The `i`-th request of a send carries `i + 1` copies of the user message. */
  lemma {:induction false} SendRequests(history: seq<Message>, message: string, replies: seq<Reply>,
                                        jitters: seq<int>, retryCount: nat, busy: bool)
    requires Oracle(replies, jitters) && retryCount <= MAX_RETRIES
    ensures var r := SendFrom(history, message, replies, jitters, retryCount, busy);
      forall i :: 0 <= i < |r.requests| ==> r.requests[i] == history + Repeat(Message(User, message), i + 1)
    decreases MAX_RETRIES - retryCount
  {
    var u := Message(User, message);
    var withUser := history + [u];
    var r := SendFrom(history, message, replies, jitters, retryCount, busy);
    if IsRetry(replies[retryCount], retryCount) {
      var rest := SendFrom(withUser, message, replies, jitters, retryCount + 1, false);
      assert r.requests == [withUser] + rest.requests;
      SendRequests(withUser, message, replies, jitters, retryCount + 1, false);
      RequestsCons(history, u, rest.requests);
    } else {
      RepeatCons(history, u, 0);
    }
  }

  /** The requests of a re-invocation, behind the caller's own request. */
  lemma RequestsCons(history: seq<Message>, u: Message, later: seq<seq<Message>>)
    requires forall i :: 0 <= i < |later| ==> later[i] == history + [u] + Repeat(u, i + 1)
    ensures var all := [history + [u]] + later;
      forall i :: 0 <= i < |all| ==> all[i] == history + Repeat(u, i + 1)
  {
    var all := [history + [u]] + later;
    RepeatCons(history, u, 0);
    forall i | 0 < i < |all| ensures all[i] == history + Repeat(u, i + 1) {
      assert all[i] == later[i - 1];
      RepeatCons(history, u, i);
    }
  }

  /** One more copy in front: `h + [x]` followed by `n` copies of `x` is `h` followed
      by `n + 1`. */
  lemma RepeatCons<T>(h: seq<T>, x: T, n: nat)
    ensures h + [x] + Repeat(x, n) == h + Repeat(x, n + 1)
  {
    assert Repeat(x, n + 1) == [x] + Repeat(x, n);
    assert h + [x] + Repeat(x, n) == h + ([x] + Repeat(x, n));
  }

  /** The retries are exactly the leading replies that ask for one: every reply before the
      last request is a 429 under the retry bound, and the last reply is not, and the
      answer is that last reply's outcome. */
  lemma {:induction false} SendRetries(history: seq<Message>, message: string, replies: seq<Reply>,
                                       jitters: seq<int>, retryCount: nat, busy: bool)
    requires Oracle(replies, jitters) && retryCount <= MAX_RETRIES
    ensures var r := SendFrom(history, message, replies, jitters, retryCount, busy);
      var k := |r.delays|;
      && RetriesFrom(replies, retryCount, k)
      && !IsRetry(replies[retryCount + k], retryCount + k)
      && r.answer == Outcome(replies[retryCount + k])
    decreases MAX_RETRIES - retryCount
  {
    if IsRetry(replies[retryCount], retryCount) {
      var withUser := history + [Message(User, message)];
      var r := SendFrom(history, message, replies, jitters, retryCount, busy);
      var rest := SendFrom(withUser, message, replies, jitters, retryCount + 1, false);
      assert |r.delays| == |rest.delays| + 1 && r.answer == rest.answer;
      SendRetries(withUser, message, replies, jitters, retryCount + 1, false);
      RetriesCons(replies, retryCount, |rest.delays|);
    }
  }

  /** The replies from `start` on ask for `k` retries in a row. */
  predicate RetriesFrom(replies: seq<Reply>, start: nat, k: nat)
    requires start + k <= |replies|
  {
    forall j :: start <= j < start + k ==> IsRetry(replies[j], j)
  }

  lemma RetriesCons(replies: seq<Reply>, start: nat, k: nat)
    requires start + 1 + k <= |replies|
    requires IsRetry(replies[start], start) && RetriesFrom(replies, start + 1, k)
    ensures RetriesFrom(replies, start, k + 1)
  {
  }

  /** `delays[i]` is the backoff of retry number `start + i`. */
  predicate BackoffsFrom(delays: seq<int>, jitters: seq<int>, start: nat)
    requires start + |delays| <= |jitters|
  {
    forall i :: 0 <= i < |delays| ==> delays[i] == BackoffDelay(start + i, jitters[start + i])
  }

  /** Each sleep is the backoff of the call that retried. */
  lemma {:induction false} SendDelays(history: seq<Message>, message: string, replies: seq<Reply>,
                                      jitters: seq<int>, retryCount: nat, busy: bool)
    requires Oracle(replies, jitters) && retryCount <= MAX_RETRIES
    ensures var r := SendFrom(history, message, replies, jitters, retryCount, busy);
      BackoffsFrom(r.delays, jitters, retryCount)
    decreases MAX_RETRIES - retryCount
  {
    if IsRetry(replies[retryCount], retryCount) {
      var withUser := history + [Message(User, message)];
      var r := SendFrom(history, message, replies, jitters, retryCount, busy);
      var rest := SendFrom(withUser, message, replies, jitters, retryCount + 1, false);
      assert r.delays == [BackoffDelay(retryCount, jitters[retryCount])] + rest.delays;
      SendDelays(withUser, message, replies, jitters, retryCount + 1, false);
      DelaysCons(jitters, retryCount, rest.delays);
    }
  }

  /** The sleeps of a re-invocation, behind the caller's own sleep. */
  lemma DelaysCons(jitters: seq<int>, retryCount: nat, later: seq<int>)
    requires retryCount + 1 + |later| <= |jitters|
    requires BackoffsFrom(later, jitters, retryCount + 1)
    ensures BackoffsFrom([BackoffDelay(retryCount, jitters[retryCount])] + later, jitters, retryCount)
  {
    var all := [BackoffDelay(retryCount, jitters[retryCount])] + later;
    forall i | 0 < i < |all| ensures all[i] == BackoffDelay(retryCount + i, jitters[retryCount + i]) {
      assert all[i] == later[i - 1];
      assert retryCount + i == retryCount + 1 + (i - 1);
    }
  }

  /** The busy flag is whatever it was for the first request and clear for every retry. */
  lemma {:induction false} SendBusy(history: seq<Message>, message: string, replies: seq<Reply>,
                                    jitters: seq<int>, retryCount: nat, busy: bool)
    requires Oracle(replies, jitters) && retryCount <= MAX_RETRIES
    ensures var r := SendFrom(history, message, replies, jitters, retryCount, busy);
      r.busyDuring[0] == busy && forall i :: 0 < i < |r.busyDuring| ==> !r.busyDuring[i]
    decreases MAX_RETRIES - retryCount
  {
    if IsRetry(replies[retryCount], retryCount) {
      var withUser := history + [Message(User, message)];
      SendBusy(withUser, message, replies, jitters, retryCount + 1, false);
    }
  }

  /** A send makes at most six requests and sleeps at most five times, each sleep inside
      its backoff window. */
  lemma SendBounds(history: seq<Message>, message: string, replies: seq<Reply>, jitters: seq<int>, busy: bool)
    requires Oracle(replies, jitters)
    ensures var r := SendFrom(history, message, replies, jitters, 0, busy);
      && 1 <= |r.requests| <= MAX_RETRIES + 1 && |r.delays| <= MAX_RETRIES
      && forall i :: 0 <= i < |r.delays| ==> Pow2(i) * 1000 <= r.delays[i] < Pow2(i) * 1000 + 1000
  {
    var r := SendFrom(history, message, replies, jitters, 0, busy);
    SendDelays(history, message, replies, jitters, 0, busy);
    assert forall i :: 0 <= i < |r.delays| ==> r.delays[i] == BackoffDelay(i, jitters[i]);
  }

  /** Six 429 replies in a row: five retries, six user copies, and the error text. */
  lemma SendRateLimitedThroughout(history: seq<Message>, message: string, replies: seq<Reply>, jitters: seq<int>)
    requires Oracle(replies, jitters)
    requires forall k :: 0 <= k <= MAX_RETRIES ==> replies[k].HttpReply? && replies[k].status == 429
    ensures var r := SendFrom(history, message, replies, jitters, 0, true);
      && |r.requests| == MAX_RETRIES + 1
      && r.answer == Answer(ERROR_TEXT, [])
      && r.history == history + Repeat(Message(User, message), MAX_RETRIES + 1) + [Message(Model, ERROR_TEXT)]
  {
    var r := SendFrom(history, message, replies, jitters, 0, true);
    SendRetries(history, message, replies, jitters, 0, true);
    SendHistory(history, message, replies, jitters, 0, true);
  }

  /** An ok first reply with text: one request, and the text is the answer. */
  lemma SendAnsweredAtOnce(history: seq<Message>, message: string, replies: seq<Reply>, jitters: seq<int>,
                           body: Generated)
    requires Oracle(replies, jitters)
    requires replies[0] == HttpReply(200, Some(body))
    requires |body.candidates| > 0 && Truthy(body.candidates[0].text)
    ensures var r := SendFrom(history, message, replies, jitters, 0, true);
      && r.requests == [history + [Message(User, message)]] && r.delays == []
      && r.answer.text == body.candidates[0].text.value
      && r.history == history + [Message(User, message), Message(Model, body.candidates[0].text.value)]
  {
  }

  /** A 429 followed by an ok reply: two requests, the second carrying the user message
      twice, and both copies stay in the history. */
  lemma SendRetriedOnce(history: seq<Message>, message: string, replies: seq<Reply>, jitters: seq<int>,
                        body: Generated)
    requires Oracle(replies, jitters)
    requires replies[0].HttpReply? && replies[0].status == 429 && replies[1] == HttpReply(200, Some(body))
    ensures var r := SendFrom(history, message, replies, jitters, 0, true);
      var u := Message(User, message);
      && r.requests == [history + [u], history + [u, u]]
      && r.busyDuring == [true, false]
      && r.delays == [1000 + jitters[0]]
      && r.history == history + [u, u, Message(Model, AnswerOf(body).text)]
  {
    var u := Message(User, message);
    assert history + [u] + [u] == history + [u, u];
    assert history + [u, u] + [Message(Model, AnswerOf(body).text)] == history + [u, u, Message(Model, AnswerOf(body).text)];
  }

  // ---------------------------------------------------------------------------
  // persistence
  // ---------------------------------------------------------------------------

  /** A chat document: `history`, `lastUpdated` (a timestamp) and any other fields. */
  datatype Doc = Doc(history: Option<seq<Message>>, lastUpdated: Option<int>, others: map<string, string>)

  /** The Firestore documents by path. */
  type Store = map<string, Doc>

  /** `saveChatHistory`: with the environment and the document reference present,
      `setDoc(ref, {history, lastUpdated}, {merge: true})`, whose failure is swallowed;
      otherwise nothing. */
  function Saved(store: Store, host: Host, docRef: Option<string>, history: seq<Message>, now: int,
                 writeFails: bool): (r: Store)
    ensures !Configured(host) || docRef.None? || writeFails ==> r == store
    ensures Configured(host) && docRef.Some? && !writeFails ==>
      && r.Keys == store.Keys + {docRef.value}
      && r[docRef.value].history == Some(history) && r[docRef.value].lastUpdated == Some(now)
      && (docRef.value in store ==> r[docRef.value].others == store[docRef.value].others)
      && (docRef.value !in store ==> r[docRef.value].others == map[])
      && (forall p :: p in store && p != docRef.value ==> r[p] == store[p])
  {
    if !Configured(host) || docRef.None? || writeFails then store
    else
      var p := docRef.value;
      var others := if p in store then store[p].others else map[];
      store[p := Doc(Some(history), Some(now), others)]
  }

  /** Saving the same history twice at the same time is saving it once. */
  lemma SaveIdempotent(store: Store, host: Host, docRef: Option<string>, history: seq<Message>, now: int,
                       writeFails: bool)
    ensures var once := Saved(store, host, docRef, history, now, writeFails);
      Saved(once, host, docRef, history, now, writeFails) == once
  {
    var once := Saved(store, host, docRef, history, now, writeFails);
    if Configured(host) && docRef.Some? && !writeFails {
      assert once[docRef.value := once[docRef.value]] == once;
    }
  }

  /** What `loadChatHistory` leaves: the document reference, the history, and the bubbles
      it displays. */
  datatype Loaded = Loaded(docRef: string, history: seq<Message>, bubbles: seq<Bubble>)

  function GreetingBubble(): Bubble {
    Bubble(GREETING, "ai", [])
  }

  /** The label `msg.role` gives a stored message's bubble. */
  function RoleName(role: Role): string {
    if role == User then "user" else "model"
  }

  function HistoryBubbles(history: seq<Message>): (r: seq<Bubble>)
    ensures |r| == |history|
    ensures forall i :: 0 <= i < |history| ==> r[i] == Bubble(history[i].text, RoleName(history[i].role), [])
  {
    if history == [] then [] else [Bubble(history[0].text, RoleName(history[0].role), [])] + HistoryBubbles(history[1..])
  }

  /** `loadChatHistory`: without a complete environment and a user, the `temp_user` document
      is chosen and nothing is read; otherwise the user's document is read, and its
      `history`, when present, replaces the history. `readFails` is `getDoc` rejecting. */
  function Load(store: Store, host: Host, history: seq<Message>, readFails: bool): (r: Loaded)
    ensures r.docRef == LoadPath(host)
    ensures r.history == history || (r.docRef in store && store[r.docRef].history == Some(r.history))
    ensures GreetingBubble() in r.bubbles ==> r.bubbles == [GreetingBubble()]
    ensures var signedIn := Configured(host) && host.currentUser.Some?;
      var found := signedIn && !readFails && r.docRef in store && store[r.docRef].history.Some?;
      && (found ==> r.history == store[r.docRef].history.value && r.bubbles == HistoryBubbles(r.history))
      && (!found ==> r.history == history)
      && (!found && (!signedIn || readFails) ==> r.bubbles == (if history == [] then [GreetingBubble()] else []))
      && (!found && signedIn && !readFails ==> r.bubbles == [GreetingBubble()])
  {
    if !(Configured(host) && host.currentUser.Some?) then
      Loaded(LoadPath(host), history, if history == [] then [GreetingBubble()] else [])
    else
      var p := LoadPath(host);
      if readFails then
        Loaded(p, history, if history == [] then [GreetingBubble()] else [])
      else if p in store && store[p].history.Some? then
        var stored := store[p].history.value;
        var bubbles := HistoryBubbles(stored);
        assert GreetingBubble() !in bubbles by {
          forall i | 0 <= i < |bubbles| ensures bubbles[i] != GreetingBubble() {
            assert bubbles[i].sender == RoleName(stored[i].role);
          }
        }
        Loaded(p, stored, bubbles)
      else
        Loaded(p, history, [GreetingBubble()])
  }

  /** The greeting is only ever displayed: the history never gains a message that
      neither was there nor was stored. */
  lemma GreetingNeverStored(store: Store, host: Host, history: seq<Message>, readFails: bool)
    requires forall p :: p in store && store[p].history.Some? ==> Message(Model, GREETING) !in store[p].history.value
    requires Message(Model, GREETING) !in history
    ensures Message(Model, GREETING) !in Load(store, host, history, readFails).history
  {
  }

  /** What a signed-in session saves, a later load of that user reads back. */
  lemma SaveThenLoad(store: Store, host: Host, history: seq<Message>, now: int, earlier: seq<Message>)
    requires Configured(host) && host.currentUser.Some?
    ensures var saved := Saved(store, host, Some(LoadPath(host)), history, now, false);
      Load(saved, host, earlier, false).history == history
  {
  }

  /** A failed write leaves nothing for the load to find that was not there before. */
  lemma FailedSaveLoadsOld(store: Store, host: Host, docRef: Option<string>, history: seq<Message>, now: int,
                           earlier: seq<Message>, readFails: bool)
    ensures Load(Saved(store, host, docRef, history, now, true), host, earlier, readFails)
         == Load(store, host, earlier, readFails)
  {
  }
}
