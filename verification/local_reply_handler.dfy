/** The handler that collects new replies of local Sones into the "local
    reply" list notification and takes them out again when a reply is
    removed or marked as known. Whether the notification manager has a
    first-start notification is an input of the new-reply event. */
module LocalReplyHandler {
  import opened Data
  import ListNotification

  /** `replies` is the notification's list; `shown` counts `addNotification` calls. */
  datatype Handler = Handler(replies: seq<PostReply>, shown: nat)

  datatype Event =
    | NewReplyFound(reply: PostReply, hasFirstStartNotification: bool)
    | ReplyRemoved(reply: PostReply)
    | ReplyMarkedKnown(reply: PostReply)

  /** `newReplyFound`: only replies of local Sones are collected; the
      notification is surfaced unless the first-start notification is shown. */
  function OnNewReplyFound(h: Handler, reply: PostReply, hasFirstStartNotification: bool): (r: Handler)
    ensures !reply.sone.isLocal ==> r == h
    ensures reply.sone.isLocal ==> r.replies == h.replies + [reply]
    ensures r.shown == h.shown + (if reply.sone.isLocal && !hasFirstStartNotification then 1 else 0)
  {
    if reply.sone.isLocal then
      Handler(ListNotification.Add(h.replies, reply), if hasFirstStartNotification then h.shown else h.shown + 1)
    else h
  }

  /** `replyRemoved` and `replyMarkedAsKnown` both take the reply out of the list. */
  function OnReplyGone(h: Handler, reply: PostReply): (r: Handler)
    ensures reply !in r.replies
    ensures forall i :: 0 <= i < |r.replies| ==> r.replies[i] in h.replies
    ensures forall i :: 0 <= i < |h.replies| && h.replies[i] != reply ==> h.replies[i] in r.replies
    // the remaining replies keep their order and multiplicity
    ensures r.replies == ListNotification.Remove(h.replies, reply)
    ensures r.shown == h.shown
  {
    h.(replies := ListNotification.Remove(h.replies, reply))
  }

  function Step(h: Handler, e: Event): Handler {
    match e
    case NewReplyFound(reply, firstStart) => OnNewReplyFound(h, reply, firstStart)
    case ReplyRemoved(reply) => OnReplyGone(h, reply)
    case ReplyMarkedKnown(reply) => OnReplyGone(h, reply)
  }

  function Run(h: Handler, events: seq<Event>): Handler
    decreases |events|
  {
    if |events| == 0 then h else Run(Step(h, events[0]), events[1..])
  }

  /** The list only ever holds replies of local Sones. */
  predicate OnlyLocal(h: Handler) {
    forall i :: 0 <= i < |h.replies| ==> h.replies[i].sone.isLocal
  }

  lemma {:induction false} RunKeepsOnlyLocal(h: Handler, events: seq<Event>)
    requires OnlyLocal(h)
    ensures OnlyLocal(Run(h, events))
    decreases |events|
  {
    if |events| > 0 {
      var h1 := Step(h, events[0]);
      assert OnlyLocal(h1);
      RunKeepsOnlyLocal(h1, events[1..]);
    }
  }

  /** A reply that is found and then removed or marked as known is no longer
      listed, and it was surfaced once unless a first-start notification existed. */
  lemma FoundThenGone(h: Handler, reply: PostReply, hasFirstStartNotification: bool, removed: bool)
    requires reply.sone.isLocal
    ensures var gone := if removed then ReplyRemoved(reply) else ReplyMarkedKnown(reply);
            var r := Step(Step(h, NewReplyFound(reply, hasFirstStartNotification)), gone);
            && reply !in r.replies
            && r.shown == h.shown + (if hasFirstStartNotification then 0 else 1)
  {
  }
}
