/**
 * The chat widget's module-level state and the functions that change it:
 * `chatHistory`, the busy flag `isAILoading`, the document reference `fsChatDocRef`,
 * and, as the parts of the page and of Firestore those functions touch, the bubbles
 * shown and the documents stored. `fetch`, the timer, `Math.random`, the clock and
 * Firestore's failures come in as parameters.
 */
module ChatSession {
  import opened Wrappers
  import opened ChatModel

  class Chat {
    /** `window.db`, `window.auth`, `window.appId`, `window.auth.currentUser`. */
    const host: Host
    var chatHistory: seq<Message>
    var isAILoading: bool
    var fsChatDocRef: Option<string>
    /** The bubbles `displayMessage` has appended to the chat window. */
    var shown: seq<Bubble>
    /** The Firestore documents. */
    var store: Store

    constructor (host: Host, store: Store)
      ensures this.host == host && this.store == store
      ensures chatHistory == [] && !isAILoading && fsChatDocRef.None? && shown == []
    {
      this.host := host;
      this.store := store;
      chatHistory, isAILoading, fsChatDocRef, shown := [], false, None, [];
    }

    /** `toggleLoading(show)`, as far as the state goes. */
    method ToggleLoading(show: bool)
      modifies this
      ensures isAILoading == show
      ensures chatHistory == old(chatHistory) && fsChatDocRef == old(fsChatDocRef)
      ensures shown == old(shown) && store == old(store)
    {
      isAILoading := show;
    }

    /** `saveChatHistory()` at time `now`; `writeFails` is `setDoc` rejecting. */
    method SaveChatHistory(now: int, writeFails: bool)
      modifies this
      ensures store == Saved(old(store), host, fsChatDocRef, chatHistory, now, writeFails)
      ensures chatHistory == old(chatHistory) && isAILoading == old(isAILoading)
      ensures fsChatDocRef == old(fsChatDocRef) && shown == old(shown)
    {
      if !Configured(host) || fsChatDocRef.None? {
        return;
      }
      if !writeFails {
        var p := fsChatDocRef.value;
        var others := if p in store then store[p].others else map[];
        store := store[p := Doc(Some(chatHistory), Some(now), others)];
      }
    }

    /** `loadChatHistory()`; `readFails` is `getDoc` rejecting. */
    method LoadChatHistory(readFails: bool)
      modifies this
      ensures var r := Load(old(store), host, old(chatHistory), readFails);
        && fsChatDocRef == Some(r.docRef) && chatHistory == r.history && shown == old(shown) + r.bubbles
      ensures isAILoading == old(isAILoading) && store == old(store)
    {
      if !Configured(host) || host.currentUser.None? {
        fsChatDocRef := Some(ChatDocPath(AppIdText(host.appId), TEMP_USER));
        if |chatHistory| == 0 {
          shown := shown + [Bubble(GREETING, "ai", [])];
        }
        return;
      }
      var userId := host.currentUser.value;
      fsChatDocRef := Some(ChatDocPath(host.appId.value, userId));
      var p := fsChatDocRef.value;
      if readFails {
        if |chatHistory| == 0 {
          shown := shown + [Bubble(GREETING, "ai", [])];
        }
      } else if p in store && store[p].history.Some? {
        chatHistory := store[p].history.value;
        var i := 0;
        while i < |chatHistory|
          invariant 0 <= i <= |chatHistory|
          invariant shown == old(shown) + HistoryBubbles(chatHistory[..i])
          invariant chatHistory == old(store)[p].history.value
          invariant store == old(store) && isAILoading == old(isAILoading) && fsChatDocRef == Some(p)
        {
          var msg := chatHistory[i];
          HistoryBubblesSnoc(chatHistory, i);
          shown := shown + [Bubble(msg.text, RoleName(msg.role), [])];
          i := i + 1;
        }
        assert chatHistory[..i] == chatHistory;
      } else {
        shown := shown + [Bubble(GREETING, "ai", [])];
      }
    }

    /** `sendMessageToAPI(message, retryCount)` run to the end, re-invocations included.
        `replies` and `jitters` are what `fetch` and `Math.random` yield, `now` the clock
        and `writeFails` the save's outcome. `requests` are the `contents` of the payloads
        from this call on, `busyDuring` the busy flag while each was in flight, `delays`
        the sleeps before the retries. */
    method SendMessageToAPI(message: string, replies: seq<Reply>, jitters: seq<int>, now: int, writeFails: bool,
                            retryCount: nat)
      returns (requests: seq<seq<Message>>, busyDuring: seq<bool>, delays: seq<int>)
      requires Oracle(replies, jitters) && retryCount <= MAX_RETRIES
      modifies this
      ensures var r := SendFrom(old(chatHistory), message, replies, jitters, retryCount, old(isAILoading));
        && chatHistory == r.history
        && requests == r.requests && busyDuring == r.busyDuring && delays == r.delays
        && shown == old(shown) + [Bubble(r.answer.text, "ai", r.answer.sources)]
        && store == Saved(old(store), host, fsChatDocRef, chatHistory, now, writeFails)
      ensures !isAILoading && fsChatDocRef == old(fsChatDocRef)
      decreases MAX_RETRIES - retryCount
    {
      chatHistory := chatHistory + [Message(User, message)];
      var sent, busy := chatHistory, isAILoading;
      var reply := replies[retryCount];
      if reply.HttpReply? && reply.status == 429 && retryCount < MAX_RETRIES {
        var delay := BackoffDelay(retryCount, jitters[retryCount]);
        // this call's `finally` clears the flag while the re-invocation's request is
        // in flight
        isAILoading := false;
        var laterRequests, laterBusy, laterDelays := SendMessageToAPI(message, replies, jitters, now, writeFails, retryCount + 1);
        requests, busyDuring, delays := [sent] + laterRequests, [busy] + laterBusy, [delay] + laterDelays;
      } else {
        Conclude(Outcome(reply), now, writeFails);
        requests, busyDuring, delays := [sent], [busy], [];
      }
    }

    /** The end of a call that does not retry: the model message is pushed and displayed,
        the history saved, and the busy flag cleared by the `finally`. */
    method Conclude(answer: Answer, now: int, writeFails: bool)
      modifies this
      ensures chatHistory == old(chatHistory) + [Message(Model, answer.text)]
      ensures shown == old(shown) + [Bubble(answer.text, "ai", answer.sources)]
      ensures store == Saved(old(store), host, fsChatDocRef, chatHistory, now, writeFails)
      ensures !isAILoading && fsChatDocRef == old(fsChatDocRef)
    {
      chatHistory := chatHistory + [Message(Model, answer.text)];
      shown := shown + [Bubble(answer.text, "ai", answer.sources)];
      SaveChatHistory(now, writeFails);
      ToggleLoading(false);
    }

    /** `handleSendMessage()` with `input` as the text box's value: nothing happens for a
        blank message or while busy; otherwise the message is shown, the busy flag set and
        the message sent. `requests`, `busyDuring` and `delays` are those of the send, and
        empty when nothing is sent. */
    method HandleSendMessage(input: string, replies: seq<Reply>, jitters: seq<int>, now: int, writeFails: bool)
      returns (sent: bool, requests: seq<seq<Message>>, busyDuring: seq<bool>, delays: seq<int>)
      requires Oracle(replies, jitters)
      modifies this
      ensures sent <==> Trim(input) != "" && !old(isAILoading)
      ensures !sent ==> && chatHistory == old(chatHistory) && isAILoading == old(isAILoading)
                        && shown == old(shown) && store == old(store) && fsChatDocRef == old(fsChatDocRef)
                        && requests == [] && busyDuring == [] && delays == []
      ensures sent ==>
        var r := SendFrom(old(chatHistory), Trim(input), replies, jitters, 0, true);
        && chatHistory == r.history
        && requests == r.requests && busyDuring == r.busyDuring && delays == r.delays
        && shown == old(shown) + [Bubble(Trim(input), "user", []), Bubble(r.answer.text, "ai", r.answer.sources)]
        && store == Saved(old(store), host, fsChatDocRef, chatHistory, now, writeFails)
        && !isAILoading && fsChatDocRef == old(fsChatDocRef)
      ensures sent ==> |busyDuring| > 0 && busyDuring[0]
    {
      var message := Trim(input);
      if message == "" || isAILoading {
        return false, [], [], [];
      }
      shown := shown + [Bubble(message, "user", [])];
      ToggleLoading(true);
      requests, busyDuring, delays := SendMessageToAPI(message, replies, jitters, now, writeFails, 0);
      SendBusy(old(chatHistory), message, replies, jitters, 0, true);
      sent := true;
    }
  }

  /** The bubbles for one more stored message. */
  lemma HistoryBubblesSnoc(history: seq<Message>, i: nat)
    requires i < |history|
    ensures HistoryBubbles(history[..i + 1]) ==
      HistoryBubbles(history[..i]) + [Bubble(history[i].text, RoleName(history[i].role), [])]
  {
    var prefix := history[..i];
    var longer := HistoryBubbles(prefix + [history[i]]);
    var snoc := HistoryBubbles(prefix) + [Bubble(history[i].text, RoleName(history[i].role), [])];
    assert prefix + [history[i]] == history[..i + 1];
    forall j | 0 <= j < |longer| ensures longer[j] == snoc[j] {
      if j < i {
        assert (prefix + [history[i]])[j] == prefix[j];
      }
    }
  }
}
