// The browser client's glue (ui/js/app.js): the render coalescer, the wall
// event's effect on the feed, the tab title, arrow-key tab navigation and
// the guards that discard message pages for a delegate no longer selected.
// The DOM, `fetch`, timers and the shared store's subscription mechanism
// are outside the model; the store's fields are fields of `ClientState`.

module App {
  import opened Wrappers
  import opened Text
  import opened Messages

  // ------------------------------------------------------ render coalescer

  /** The coalescer's flag and, for reasoning, how many animation frames
      were requested and how many have run. */
  datatype Frames = Frames(scheduled: bool, requested: nat, ran: nat)

  /** `scheduleRender`: a frame is requested only when none is pending. */
  function Scheduled(f: Frames): Frames {
    if f.scheduled then f else f.(scheduled := true, requested := f.requested + 1)
  }

  /** The frame callback: the flag is cleared before anything is drawn. */
  function FrameRan(f: Frames): Frames {
    f.(scheduled := false, ran := f.ran + 1)
  }

  /** The flag is up exactly when one requested frame has not run yet. */
  predicate OnePending(f: Frames) {
    f.requested == f.ran + (if f.scheduled then 1 else 0)
  }

  /** Scheduling again while a frame is pending requests nothing more. */
  lemma ScheduleIdempotent(f: Frames)
    ensures Scheduled(Scheduled(f)) == Scheduled(f)
    ensures Scheduled(f).requested <= f.requested + 1
    ensures f.scheduled ==> Scheduled(f) == f
  {
  }

  /** Scheduling and running frames keep at most one frame pending, and a
      change signalled after a frame started gets a frame of its own. */
  lemma CoalescerKeepsOnePending(f: Frames)
    requires OnePending(f)
    ensures OnePending(Scheduled(f))
    ensures f.scheduled ==> OnePending(FrameRan(f))
    ensures f.scheduled ==> Scheduled(FrameRan(f)).requested == f.requested + 1
  {
  }

  class RenderLoop {
    var scheduled: bool
    ghost var requested: nat
    ghost var ran: nat

    ghost function Snapshot(): Frames
      reads this
    {
      Frames(scheduled, requested, ran)
    }

    constructor ()
      ensures Snapshot() == Frames(false, 0, 0) && OnePending(Snapshot())
    {
      scheduled := false;
      requested := 0;
      ran := 0;
    }

    /** `scheduleRender`. */
    method ScheduleRender()
      modifies this
      ensures Snapshot() == Scheduled(old(Snapshot()))
    {
      if scheduled {
        return;
      }
      scheduled := true;
      requested := requested + 1;
    }

    /** The `requestAnimationFrame` callback, which runs only for a
        requested frame. */
    method OnFrame()
      requires scheduled
      modifies this
      ensures Snapshot() == FrameRan(old(Snapshot()))
    {
      scheduled := false;
      ran := ran + 1;
    }
  }

  // ------------------------------------------------------ tab title

  datatype Title = Disconnected | AllDone | ActiveCount(n: nat) | Plain

  /** `updateTabTitle`'s choice; absent counts are 0, `total` is the number
      of tree children. */
  function TabTitle(connected: bool, active: nat, complete: nat, total: nat): Title {
    if !connected then Disconnected
    else if total > 0 && active == 0 && complete == total then AllDone
    else if active > 0 then ActiveCount(active)
    else Plain
  }

  function TitleText(t: Title): string {
    match t
    case Disconnected => "Goosetown ⚠️ disconnected"
    case AllDone => "Goosetown ✅ all done"
    case ActiveCount(n) => "Goosetown (" + NatToString(n) + " active)"
    case Plain => "Goosetown"
  }

  /** The precedence of the title: a lost connection first, then all
      children done, then the active count, then the plain name. */
  lemma TabTitleRules(connected: bool, active: nat, complete: nat, total: nat)
    ensures var t := TabTitle(connected, active, complete, total);
      (t == Disconnected <==> !connected) &&
      (t == AllDone <==> connected && total > 0 && active == 0 && complete == total) &&
      (t.ActiveCount? <==> connected && active > 0) &&
      (t.ActiveCount? ==> t.n == active) &&
      (t == Plain <==> connected && active == 0 && !(total > 0 && complete == total))
  {
  }

  /** Different titles read differently, so the tab text tells the state. */
  lemma TitleTextDistinct(t1: Title, t2: Title)
    ensures TitleText(t1) == TitleText(t2) <==> t1 == t2
  {
    if TitleText(t1) == TitleText(t2) {
      TitleMarks(t1);
      TitleMarks(t2);
      if t1.ActiveCount? && t2.ActiveCount? {
        var a := NatToString(t1.n);
        var b := NatToString(t2.n);
        var p := "Goosetown (";
        var q := " active)";
        assert |a| == |b|;
        assert a == TitleText(t1)[|p|..|p| + |a|];
        assert b == TitleText(t2)[|p|..|p| + |b|];
        ParseNatToString(t1.n);
        ParseNatToString(t2.n);
      }
    }
  }

  /** Only the plain title is nine characters long; the others differ at
      the character after `Goosetown `. */
  lemma TitleMarks(t: Title)
    ensures (|TitleText(t)| == 9) == (t == Plain)
    ensures t != Plain ==>
      (|TitleText(t)| > 10 &&
       TitleText(t)[10] == match t
         case Disconnected => '⚠'
         case AllDone => '✅'
         case _ => '(')
  {
  }

  // ------------------------------------------------------ arrow keys

  /** The tab an arrow key moves to from tab `idx` of `n`, or -1 for any
      other key. */
  function ArrowTarget(key: string, idx: int, n: int): int
    requires 0 <= idx < n
  {
    if key == "ArrowRight" then (idx + 1) % n
    else if key == "ArrowLeft" then (idx - 1 + n) % n
    else -1
  }

  lemma ModBelow(a: int, n: int)
    requires 0 <= a < n
    ensures a % n == a
  {
  }

  lemma ModOnce(a: int, n: int)
    requires 0 < n <= a < 2 * n
    ensures a % n == a - n
  {
  }

  /** One step right and one step left, written without the remainder. */
  lemma ArrowSteps(idx: int, n: int)
    requires 0 <= idx < n
    ensures ArrowTarget("ArrowRight", idx, n) == if idx == n - 1 then 0 else idx + 1
    ensures ArrowTarget("ArrowLeft", idx, n) == if idx == 0 then n - 1 else idx - 1
  {
    if idx == n - 1 {
      ModOnce(idx + 1, n);
    } else {
      ModBelow(idx + 1, n);
    }
    if idx == 0 {
      ModBelow(idx - 1 + n, n);
    } else {
      ModOnce(idx - 1 + n, n);
    }
  }

  /** The arrows stay within the tabs and wrap at both ends; left undoes
      right and right undoes left; other keys move nowhere. */
  lemma ArrowRules(key: string, idx: int, n: int)
    requires 0 <= idx < n
    ensures key == "ArrowRight" || key == "ArrowLeft" ==> 0 <= ArrowTarget(key, idx, n) < n
    ensures key != "ArrowRight" && key != "ArrowLeft" ==> ArrowTarget(key, idx, n) == -1
    ensures ArrowTarget("ArrowRight", idx, n) == if idx == n - 1 then 0 else idx + 1
    ensures ArrowTarget("ArrowLeft", idx, n) == if idx == 0 then n - 1 else idx - 1
    ensures ArrowTarget("ArrowLeft", ArrowTarget("ArrowRight", idx, n), n) == idx
    ensures ArrowTarget("ArrowRight", ArrowTarget("ArrowLeft", idx, n), n) == idx
  {
    ArrowSteps(idx, n);
    var r := ArrowTarget("ArrowRight", idx, n);
    var l := ArrowTarget("ArrowLeft", idx, n);
    ArrowSteps(r, n);
    ArrowSteps(l, n);
  }

  // ------------------------------------------------------ client state

  /** A wall message in the feed; `isNew` marks one that arrived live. */
  datatype FeedMsg = FeedMsg(msg: WallMsg, isNew: bool)

  /** A delegate conversation message: the fields the pager reads. */
  datatype DelegateMsg = DelegateMsg(created: string, createdTimestamp: string, content: string)

  /** A page of a delegate's messages as the server returns it. */
  datatype Page = Page(messages: seq<DelegateMsg>, hasMore: bool)

  /** A request for older messages: for which delegate, before which
      time, and the messages on screen when it was sent. */
  datatype OlderRequest = OlderRequest(sid: string, before: string, shown: seq<DelegateMsg>)

  /** `loadOlderMessages`' decision to ask at all: only with a delegate
      selected and messages shown, anchored at the oldest message's
      `created` (else `created_timestamp`) time, and only when that time
      is known. */
  function OlderRequestFor(sid: string, msgs: seq<DelegateMsg>): (r: Option<OlderRequest>)
    ensures r.Some? <==>
      (sid != "" && |msgs| > 0 && (msgs[0].created != "" || msgs[0].createdTimestamp != ""))
    ensures r.Some? ==>
      (r.value.sid == sid && r.value.shown == msgs &&
       r.value.before == (if msgs[0].created != "" then msgs[0].created else msgs[0].createdTimestamp))
  {
    if sid == "" || |msgs| == 0 then None
    else
      var before := if msgs[0].created != "" then msgs[0].created else msgs[0].createdTimestamp;
      if before == "" then None else Some(OlderRequest(sid, before, msgs))
  }

  /** The client's shared state, as far as these handlers touch it. */
  class ClientState {
    var connected: bool
    var wallMessages: seq<FeedMsg>
    var lastWallMessageTime: Option<real>
    var unreadCount: nat
    var selectedDelegate: string
    var activeTab: string
    var delegateMessages: seq<DelegateMsg>
    var delegateHasMore: bool

    constructor ()
      ensures !connected && wallMessages == [] && lastWallMessageTime.None? && unreadCount == 0
      ensures selectedDelegate == "" && delegateMessages == [] && !delegateHasMore
    {
      connected := false;
      wallMessages := [];
      lastWallMessageTime := None;
      unreadCount := 0;
      selectedDelegate := "";
      activeTab := "";
      delegateMessages := [];
      delegateHasMore := false;
    }

    /** The `wall` event at time `now`, with `scrollTop` the feed's scroll
        offset (`None` when there is no feed): the normalised message is
        appended as new, and it counts as unread only when the feed is
        scrolled away from the top. */
    method OnWall(raw: RawWallMsg, now: real, scrollTop: Option<real>)
      modifies this
      ensures wallMessages == old(wallMessages) + [FeedMsg(NormalizeWallMsg(raw, now), true)]
      ensures lastWallMessageTime == Some(now)
      ensures var nearTop := scrollTop.None? || scrollTop.value < 100.0;
        unreadCount == if nearTop then old(unreadCount) else old(unreadCount) + 1
      ensures selectedDelegate == old(selectedDelegate) && delegateMessages == old(delegateMessages)
      ensures delegateHasMore == old(delegateHasMore) && activeTab == old(activeTab)
      ensures connected == old(connected)
    {
      var msg := FeedMsg(NormalizeWallMsg(raw, now), true);
      var nearTop := if scrollTop.Some? then scrollTop.value < 100.0 else true;
      wallMessages := wallMessages + [msg];
      lastWallMessageTime := Some(now);
      if !nearTop {
        unreadCount := unreadCount + 1;
      }
    }

    /** `selectDelegate(sid)` up to its request: nothing for an empty id;
        otherwise the delegate is selected on its conversation tab with no
        messages until its page arrives. */
    method SelectDelegate(sid: string)
      modifies this
      ensures sid == "" ==>
        selectedDelegate == old(selectedDelegate) && activeTab == old(activeTab) &&
        delegateMessages == old(delegateMessages) && delegateHasMore == old(delegateHasMore)
      ensures sid != "" ==>
        selectedDelegate == sid && activeTab == "conversation" &&
        delegateMessages == [] && !delegateHasMore
      ensures wallMessages == old(wallMessages) && unreadCount == old(unreadCount)
      ensures lastWallMessageTime == old(lastWallMessageTime) && connected == old(connected)
    {
      if sid == "" {
        return;
      }
      selectedDelegate := sid;
      activeTab := "conversation";
      delegateMessages := [];
      delegateHasMore := false;
    }

    /** The response to `selectDelegate(sid)`: a failed request (`None`)
        and a page for a delegate no longer selected are dropped. */
    method OnMessagesLoaded(sid: string, page: Option<Page>)
      modifies this
      ensures page.Some? && selectedDelegate == sid ==>
        delegateMessages == page.value.messages && delegateHasMore == page.value.hasMore
      ensures !(page.Some? && old(selectedDelegate) == sid) ==>
        delegateMessages == old(delegateMessages) && delegateHasMore == old(delegateHasMore)
      ensures selectedDelegate == old(selectedDelegate) && activeTab == old(activeTab)
      ensures wallMessages == old(wallMessages) && unreadCount == old(unreadCount)
      ensures lastWallMessageTime == old(lastWallMessageTime) && connected == old(connected)
    {
      if page.None? {
        return;
      }
      if selectedDelegate != sid {
        return;
      }
      delegateMessages := page.value.messages;
      delegateHasMore := page.value.hasMore;
    }

    /** `loadOlderMessages` up to its request. */
    method LoadOlderMessages() returns (req: Option<OlderRequest>)
      ensures req == OlderRequestFor(selectedDelegate, delegateMessages)
    {
      req := None;
      var sid, msgs := selectedDelegate, delegateMessages;
      if sid == "" || |msgs| == 0 {
        return;
      }
      var before := if msgs[0].created != "" then msgs[0].created else msgs[0].createdTimestamp;
      if before == "" {
        return;
      }
      req := Some(OlderRequest(sid, before, msgs));
    }

    /** The response to a request for older messages: dropped when it
        failed or its delegate is no longer selected; otherwise the older
        page goes before the messages shown when it was asked for. */
    method OnOlderLoaded(req: OlderRequest, page: Option<Page>)
      modifies this
      ensures page.Some? && selectedDelegate == req.sid ==>
        delegateMessages == page.value.messages + req.shown &&
        delegateHasMore == page.value.hasMore
      ensures !(page.Some? && old(selectedDelegate) == req.sid) ==>
        delegateMessages == old(delegateMessages) && delegateHasMore == old(delegateHasMore)
      ensures selectedDelegate == old(selectedDelegate) && activeTab == old(activeTab)
      ensures wallMessages == old(wallMessages) && unreadCount == old(unreadCount)
      ensures lastWallMessageTime == old(lastWallMessageTime) && connected == old(connected)
    {
      if page.None? {
        return;
      }
      if selectedDelegate != req.sid {
        return;
      }
      delegateMessages := page.value.messages + req.shown;
      delegateHasMore := page.value.hasMore;
    }
  }

  /** Older messages come before the ones already shown, in order, and
      none is lost: the shown messages are the tail of the new list. */
  lemma OlderPrepended(page: Page, shown: seq<DelegateMsg>)
    ensures var all := page.messages + shown;
      all[|page.messages|..] == shown && all[..|page.messages|] == page.messages &&
      |all| == |page.messages| + |shown|
  {
  }
}
