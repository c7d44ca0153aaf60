// The behaviour of one goose in the 3D town (ui/town/goose.js): its state
// machine (idle, walking, posting, reading), the pen, the board dwell timer
// and the wander timer. Motion is always a straight line towards the target,
// so the goose's position is kept as its remaining distance to the target;
// the distance to a newly chosen target and the `Math.random()` draws are
// parameters.

module Goose3D {
  import opened Wrappers

  /** A point on the ground plane (the y coordinate is always 0). */
  datatype Point = Point(x: real, z: real)

  /** The retirement pen's rectangle. */
  datatype Bounds = Bounds(xMin: real, xMax: real, zMin: real, zMax: real)

  datatype GState = Idle | Walking | Posting | Reading

  /** The two trips to the bulletin board. */
  datatype BoardAction = Post | Read

  /** The fields of a tree child `updateFromTree` reads; `tokens` and
      `messageCount` are absent when the server omits them. */
  datatype TreeData = TreeData(id: string, status: string, tokens: Option<int>,
                               messageCount: Option<int>, gtwallId: string)

  /** The counters and identities `updateFromTree` copies from the tree. */
  datatype Tally = Tally(gtwallId: string, tokens: int, messageCount: int,
                         sessionId: Option<string>)

  /** The counter half of `updateFromTree`: absent counters read as 0,
      the session id is the child's, and only a non-empty wall id is
      adopted. */
  function Tallied(t: Tally, data: TreeData): Tally {
    Tally(if data.gtwallId != "" then data.gtwallId else t.gtwallId,
          data.tokens.GetOr(0), data.messageCount.GetOr(0), Some(data.id))
  }

  /** The counters come from the latest tree alone, except that the wall
      id survives a child without one; a second copy changes nothing. */
  lemma TalliedRules(t: Tally, t2: Tally, data: TreeData)
    ensures var r := Tallied(t, data);
      r.tokens == (if data.tokens.Some? then data.tokens.value else 0) &&
      r.messageCount == (if data.messageCount.Some? then data.messageCount.value else 0) &&
      r.sessionId == Some(data.id) &&
      (data.gtwallId == "" ==> r.gtwallId == t.gtwallId) &&
      (data.gtwallId != "" ==> r.gtwallId == data.gtwallId) &&
      Tallied(r, data) == r &&
      (t2.gtwallId == t.gtwallId ==> Tallied(t2, data) == r)
  {
  }

  /** Up to three `Math.random()` draws, each in [0, 1). */
  datatype Draws = Draws(a: real, b: real, c: real)

  predicate ValidDraws(d: Draws) {
    0.0 <= d.a < 1.0 && 0.0 <= d.b < 1.0 && 0.0 <= d.c < 1.0
  }

  const Speed: real := 1.5
  const ArriveDistance: real := 0.05
  const PostDwell: real := 2.5
  const ReadDwell: real := 3.5

  function ActionState(a: BoardAction): GState {
    if a == Post then Posting else Reading
  }

  function Dwell(a: BoardAction): real {
    if a == Post then PostDwell else ReadDwell
  }

  predicate AtBoard(st: GState) {
    st == Posting || st == Reading
  }

  /** `Math.max(lo, Math.min(hi, v))`. */
  function Clamp(lo: real, hi: real, v: real): real {
    var m := if hi < v then hi else v;
    if lo < m then m else lo
  }

  /** The part of a goose's state its behaviour depends on. */
  datatype Snap = Snap(loaded: bool, state: GState, status: string, inPen: bool,
                       penBounds: Option<Bounds>, home: Point, target: Point,
                       remaining: real, wanderTimer: real, boardTimer: real,
                       pending: Option<BoardAction>, onArrive: bool)

  // ------------------------------------------------------ the trips

  /** `goHome`: walk to a random point within one unit of home. */
  function GoneHome(s: Snap, d: Draws, dist: real): Snap {
    s.(state := Walking, pending := None,
       target := Point(s.home.x + (d.a - 0.5) * 2.0, s.home.z + (d.b - 0.5) * 2.0),
       remaining := dist)
  }

  /** `_goToBoard`: ignored while at the board; otherwise walk to a random
      approach point in front of the board, remembering what to do there. */
  function GoneToBoard(s: Snap, board: Point, action: BoardAction, callback: bool,
                       d: Draws, dist: real): Snap {
    if AtBoard(s.state) then s
    else
      s.(state := Walking, pending := Some(action), onArrive := callback,
         target := Point(board.x + (d.a - 0.5) * 0.8, board.z + (d.b - 0.5) * 0.4 + 0.8),
         remaining := dist)
  }

  /** `sendToPen`: the new home is a random point of the pen kept half a
      unit from its fences, and the goose walks there. */
  function SentToPen(s: Snap, b: Bounds, d: Draws, dist: real): Snap {
    var home := PenHome(b, d);
    s.(inPen := true, penBounds := Some(b), home := home, target := home,
       state := Walking, pending := None, remaining := dist)
  }

  lemma GoneToBoardRules(s: Snap, board: Point, action: BoardAction, callback: bool,
                         d: Draws, dist: real)
    requires ValidDraws(d)
    ensures var r := GoneToBoard(s, board, action, callback, d, dist);
      (AtBoard(s.state) ==> r == s) &&
      (!AtBoard(s.state) ==>
        r.state == Walking && r.pending == Some(action) && r.onArrive == callback &&
        board.x - 0.4 <= r.target.x < board.x + 0.4 &&
        board.z + 0.6 <= r.target.z < board.z + 1.0 &&
        r.home == s.home && r.inPen == s.inPen && r.status == s.status)
  {
  }

  lemma GoneHomeRules(s: Snap, d: Draws, dist: real)
    requires ValidDraws(d)
    ensures var r := GoneHome(s, d, dist);
      r.state == Walking && r.pending.None? && r.home == s.home &&
      s.home.x - 1.0 <= r.target.x < s.home.x + 1.0 &&
      s.home.z - 1.0 <= r.target.z < s.home.z + 1.0
  {
  }

  /** The pen home stays half a unit inside the fences (for a pen at least
      one unit wide and deep). */
  lemma SentToPenRules(s: Snap, b: Bounds, d: Draws, dist: real)
    requires ValidDraws(d)
    requires b.xMax - b.xMin >= 1.0 && b.zMax - b.zMin >= 1.0
    ensures var r := SentToPen(s, b, d, dist);
      r.inPen && r.penBounds == Some(b) && r.state == Walking && r.pending.None? &&
      r.target == r.home &&
      b.xMin + 0.5 <= r.home.x <= b.xMax - 0.5 &&
      b.zMin + 0.5 <= r.home.z <= b.zMax - 0.5
  {
    PenCoordInside(b.xMin, b.xMax, d.a);
    PenCoordInside(b.zMin, b.zMax, d.b);
  }

  lemma NonNegProduct(a: real, b: real)
    requires a >= 0.0 && b >= 0.0
    ensures a * b >= 0.0
  {
  }

  /** A random coordinate between two fences, half a unit clear of each. */
  function PenCoord(lo: real, hi: real, t: real): real {
    lo + 0.5 + t * (hi - lo - 1.0)
  }

  /** The random pen home of `sendToPen`. */
  function PenHome(b: Bounds, d: Draws): Point {
    Point(PenCoord(b.xMin, b.xMax, d.a), PenCoord(b.zMin, b.zMax, d.b))
  }

  lemma PenCoordInside(lo: real, hi: real, t: real)
    requires 0.0 <= t < 1.0 && hi - lo >= 1.0
    ensures lo + 0.5 <= PenCoord(lo, hi, t) <= hi - 0.5
  {
    var w := hi - lo - 1.0;
    NonNegProduct(t, w);
    NonNegProduct(1.0 - t, w);
    assert (1.0 - t) * w == w - t * w;
  }

  // ------------------------------------------------------ one frame

  /** Walking: the step is `min(1.5 * dt, dist)`, so the goose stops on
      the target rather than passing it. */
  function Moved(s: Snap, dt: real): Snap {
    var step := if Speed * dt < s.remaining then Speed * dt else s.remaining;
    s.(remaining := s.remaining - step)
  }

  /** Standing still while walking means arrival: the pending board action
      starts with its dwell time (and its callback fires, once), or the
      goose goes idle. The flag says the callback fired. */
  function Arrived(s: Snap): (Snap, bool) {
    if s.state != Walking then (s, false)
    else match s.pending
      case Some(a) => (s.(state := ActionState(a), boardTimer := Dwell(a), onArrive := false), s.onArrive)
      case None => (s.(state := Idle), false)
  }

  /** At the board and standing still, the dwell timer runs down; when it
      is spent the goose heads home. */
  function Dwelt(s: Snap, moving: bool, dt: real, d: Draws, dist: real): Snap {
    if AtBoard(s.state) && !moving then
      var t := s.boardTimer - dt;
      if t <= 0.0 then GoneHome(s.(boardTimer := t), d, dist) else s.(boardTimer := t)
    else s
  }

  /** An idle goose's wander timer runs down; when spent, a penned goose
      strolls to a random point of the pen (0.3 from the fences) and waits
      5 to 13 seconds next time, and an unpenned goose that is not complete
      strolls near home and waits 8 to 20 seconds. */
  function Wandered(s: Snap, dt: real, d: Draws, dist: real): Snap {
    if s.state != Idle then s
    else
      var t := s.wanderTimer - dt;
      if t > 0.0 then s.(wanderTimer := t)
      else if s.inPen && s.penBounds.Some? then
        var b := s.penBounds.value;
        s.(wanderTimer := 5.0 + d.a * 8.0,
           target := Point(Clamp(b.xMin + 0.3, b.xMax - 0.3, s.home.x + (d.b - 0.5) * 1.5),
                           Clamp(b.zMin + 0.3, b.zMax - 0.3, s.home.z + (d.c - 0.5) * 1.5)),
           remaining := dist, state := Walking)
      else if s.status != "complete" then
        s.(wanderTimer := 8.0 + d.a * 12.0, state := Walking,
           target := Point(s.home.x + (d.b - 0.5) * 2.5, s.home.z + (d.c - 0.5) * 2.5),
           remaining := dist)
      else s.(wanderTimer := t)
  }

  /** `update(dt)`: nothing until the model is loaded; then move or
      arrive, run the dwell timer, and wander. `dist` is the distance to
      whatever new target the frame picks. */
  function Updated(s: Snap, dt: real, d: Draws, dist: real): (Snap, bool) {
    if !s.loaded then (s, false)
    else
      var moving := s.remaining > ArriveDistance;
      var a := if moving then (Moved(s, dt), false) else Arrived(s);
      (Wandered(Dwelt(a.0, moving, dt, d, dist), dt, d, dist), a.1)
  }

  /** The step never carries the goose past its target: the remaining
      distance shrinks by `1.5 * dt` or drops to exactly zero. */
  lemma MoveNeverOvershoots(s: Snap, dt: real)
    requires dt >= 0.0 && s.remaining >= 0.0
    ensures var r := Moved(s, dt);
      0.0 <= r.remaining <= s.remaining &&
      (r.remaining == 0.0 <==> Speed * dt >= s.remaining) &&
      (r.remaining > 0.0 ==> r.remaining == s.remaining - Speed * dt)
  {
  }

  /** A frame of a moving goose that is not idle only moves it. */
  lemma MovingFrame(s: Snap, dt: real, d: Draws, dist: real)
    requires s.loaded && s.remaining > ArriveDistance && s.state != Idle
    ensures Updated(s, dt, d, dist) == (Moved(s, dt), false)
  {
  }

  /** Nothing happens before the model has loaded. */
  lemma UnloadedFrame(s: Snap, dt: real, d: Draws, dist: real)
    requires !s.loaded
    ensures Updated(s, dt, d, dist) == (s, false)
  {
  }

  /** Arriving with a pending board action starts it, with the dwell time
      already reduced by this frame, and fires a registered callback. */
  lemma ArrivalStartsAction(s: Snap, dt: real, d: Draws, dist: real)
    requires s.loaded && s.remaining <= ArriveDistance && s.state == Walking && s.pending.Some?
    requires dt < Dwell(s.pending.value)
    ensures var (r, fired) := Updated(s, dt, d, dist);
      r.state == ActionState(s.pending.value) &&
      r.boardTimer == Dwell(s.pending.value) - dt &&
      fired == s.onArrive && !r.onArrive && r.target == s.target
  {
  }

  /** Arriving with nothing pending leaves the goose idle (unless its
      wander timer is spent in the same frame). */
  lemma ArrivalWithoutActionIdles(s: Snap, dt: real, d: Draws, dist: real)
    requires s.loaded && s.remaining <= ArriveDistance && s.state == Walking && s.pending.None?
    requires s.wanderTimer - dt > 0.0
    ensures var (r, fired) := Updated(s, dt, d, dist);
      r.state == Idle && !fired && r.wanderTimer == s.wanderTimer - dt
  {
  }

  /** The arrival callback fires at most once: firing clears it, and a
      goose with no callback registered fires none. */
  lemma CallbackFiresOnce(s: Snap, dt: real, d: Draws, dist: real)
    ensures var (r, fired) := Updated(s, dt, d, dist);
      (fired ==> s.onArrive && !r.onArrive) && (!s.onArrive ==> !fired)
  {
  }

  /** The dwell timer changes only at the board while standing still; when
      it runs out the goose walks home with no pending action. */
  lemma DwellTimerRules(s: Snap, dt: real, d: Draws, dist: real)
    requires s.loaded && AtBoard(s.state)
    ensures var (r, _) := Updated(s, dt, d, dist);
      (s.remaining > ArriveDistance ==> r.boardTimer == s.boardTimer && r.state == s.state) &&
      (s.remaining <= ArriveDistance && s.boardTimer - dt > 0.0 ==>
        r.boardTimer == s.boardTimer - dt && r.state == s.state) &&
      (s.remaining <= ArriveDistance && s.boardTimer - dt <= 0.0 ==>
        r.state == Walking && r.pending.None? && r.remaining == dist)
  {
  }

  /** A penned idle goose whose timer is spent strolls within the pen,
      0.3 from its fences, and waits 5 to 13 seconds next time. */
  lemma PenWanderStaysInPen(s: Snap, dt: real, d: Draws, dist: real)
    requires ValidDraws(d)
    requires s.state == Idle && s.inPen && s.penBounds.Some? && s.wanderTimer - dt <= 0.0
    requires var b := s.penBounds.value; b.xMax - b.xMin >= 0.6 && b.zMax - b.zMin >= 0.6
    ensures var r := Wandered(s, dt, d, dist); var b := s.penBounds.value;
      r.state == Walking && 5.0 <= r.wanderTimer < 13.0 &&
      b.xMin + 0.3 <= r.target.x <= b.xMax - 0.3 &&
      b.zMin + 0.3 <= r.target.z <= b.zMax - 0.3
  {
  }

  /** Outside the pen a goose that is not complete wanders near home and
      waits 8 to 20 seconds; a complete one never wanders. */
  lemma OutsideWanderRules(s: Snap, dt: real, d: Draws, dist: real)
    requires ValidDraws(d)
    requires s.state == Idle && !(s.inPen && s.penBounds.Some?)
    ensures var r := Wandered(s, dt, d, dist);
      (s.status == "complete" ==> r.state == Idle && r.target == s.target && r.remaining == s.remaining) &&
      (s.status != "complete" && s.wanderTimer - dt <= 0.0 ==>
        r.state == Walking && 8.0 <= r.wanderTimer < 20.0 &&
        s.home.x - 1.25 <= r.target.x < s.home.x + 1.25 &&
        s.home.z - 1.25 <= r.target.z < s.home.z + 1.25)
  {
  }

  /** One goose of the town. */
  class Goose {
    const id: string
    const role: string
    var gtwallId: string
    const board: Point
    var state: GState
    var status: string
    var inPen: bool
    var penBounds: Option<Bounds>
    var tokens: int
    var messageCount: int
    var sessionId: Option<string>
    var home: Point
    var target: Point
    var remaining: real
    var wanderTimer: real
    var boardTimer: real
    var pending: Option<BoardAction>
    var onArrive: bool
    var loaded: bool

    function Snapshot(): Snap
      reads this
    {
      Snap(loaded, state, status, inPen, penBounds, home, target, remaining,
           wanderTimer, boardTimer, pending, onArrive)
    }

    function Counters(): Tally
      reads this
    {
      Tally(gtwallId, tokens, messageCount, sessionId)
    }

    /** A new goose stands idle at the origin, out of the pen, with its
        wander timer drawn from [0, 10); its model is still loading. */
    constructor (id: string, role: string, gtwallId: string, board: Point, draw: real)
      requires 0.0 <= draw < 1.0
      ensures this.id == id && this.role == role && this.gtwallId == gtwallId && this.board == board
      ensures state == Idle && status == "idle" && !inPen && penBounds.None?
      ensures tokens == 0 && messageCount == 0 && sessionId.None?
      ensures 0.0 <= wanderTimer < 10.0 && wanderTimer == draw * 10.0
      ensures home == Point(0.0, 0.0) && target == home && remaining == 0.0
      ensures pending.None? && !onArrive && !loaded && boardTimer == 0.0
    {
      this.id := id;
      this.role := role;
      this.gtwallId := gtwallId;
      this.board := board;
      state := Idle;
      status := "idle";
      inPen := false;
      penBounds := None;
      tokens := 0;
      messageCount := 0;
      sessionId := None;
      home := Point(0.0, 0.0);
      target := Point(0.0, 0.0);
      remaining := 0.0;
      wanderTimer := draw * 10.0;
      boardTimer := 0.0;
      pending := None;
      onArrive := false;
      loaded := false;
    }

    /** The model finished loading: the goose is placed at home. */
    method ModelLoaded()
      modifies this
      ensures Snapshot() == old(Snapshot()).(loaded := true, target := old(home), remaining := 0.0)
      ensures gtwallId == old(gtwallId) && tokens == old(tokens)
      ensures messageCount == old(messageCount) && sessionId == old(sessionId)
    {
      loaded := true;
      target := home;
      remaining := 0.0;
    }

    /** The mesh is moved straight onto its home, which is its target. */
    method PlaceAtHome()
      modifies this
      requires target == home
      ensures Snapshot() == old(Snapshot()).(remaining := 0.0)
      ensures gtwallId == old(gtwallId) && tokens == old(tokens)
      ensures messageCount == old(messageCount) && sessionId == old(sessionId)
    {
      remaining := 0.0;
    }

    /** `setHome`: home, target and position all become `p`. */
    method SetHome(p: Point)
      modifies this
      ensures Snapshot() == old(Snapshot()).(home := p, target := p, remaining := 0.0)
      ensures gtwallId == old(gtwallId) && tokens == old(tokens)
      ensures messageCount == old(messageCount) && sessionId == old(sessionId)
    {
      home := p;
      target := p;
      remaining := 0.0;
    }

    /** `updateFromTree`: copies status and counters (absent counters
        read as 0) and adopts a non-empty `gtwall_id`. */
    method UpdateFromTree(data: TreeData)
      modifies this
      ensures Snapshot() == old(Snapshot()).(status := data.status)
      ensures Counters() == Tallied(old(Counters()), data)
      ensures tokens == data.tokens.GetOr(0) && messageCount == data.messageCount.GetOr(0)
      ensures sessionId == Some(data.id)
      ensures gtwallId == if data.gtwallId != "" then data.gtwallId else old(gtwallId)
    {
      status := data.status;
      tokens := data.tokens.GetOr(0);
      messageCount := data.messageCount.GetOr(0);
      sessionId := Some(data.id);
      if data.gtwallId != "" {
        gtwallId := data.gtwallId;
      }
    }

    /** `sendToPen`; `dist` is the distance to the new home. */
    method SendToPen(b: Bounds, d: Draws, dist: real)
      modifies this
      ensures Snapshot() == SentToPen(old(Snapshot()), b, d, dist)
      ensures gtwallId == old(gtwallId) && tokens == old(tokens)
      ensures messageCount == old(messageCount) && sessionId == old(sessionId)
    {
      inPen := true;
      penBounds := Some(b);
      home := PenHome(b, d);
      target := home;
      state := Walking;
      pending := None;
      remaining := dist;
    }

    /** `_goToBoard`, behind `goPost` (with or without an arrival
        callback) and `goRead` (without one). */
    method GoToBoard(action: BoardAction, callback: bool, d: Draws, dist: real)
      modifies this
      ensures Snapshot() == GoneToBoard(old(Snapshot()), board, action, callback, d, dist)
      ensures gtwallId == old(gtwallId) && tokens == old(tokens)
      ensures messageCount == old(messageCount) && sessionId == old(sessionId)
    {
      if state == Posting || state == Reading {
        return;
      }
      state := Walking;
      pending := Some(action);
      onArrive := callback;
      target := Point(board.x + (d.a - 0.5) * 0.8, board.z + (d.b - 0.5) * 0.4 + 0.8);
      remaining := dist;
    }

    /** `goHome`. */
    method GoHome(d: Draws, dist: real)
      modifies this
      ensures Snapshot() == GoneHome(old(Snapshot()), d, dist)
      ensures gtwallId == old(gtwallId) && tokens == old(tokens)
      ensures messageCount == old(messageCount) && sessionId == old(sessionId)
    {
      state := Walking;
      pending := None;
      target := Point(home.x + (d.a - 0.5) * 2.0, home.z + (d.b - 0.5) * 2.0);
      remaining := dist;
    }

    /** The walking step of `update`. */
    method Move(dt: real)
      modifies this
      ensures Snapshot() == Moved(old(Snapshot()), dt)
      ensures gtwallId == old(gtwallId) && tokens == old(tokens)
      ensures messageCount == old(messageCount) && sessionId == old(sessionId)
    {
      var step := if Speed * dt < remaining then Speed * dt else remaining;
      remaining := remaining - step;
    }

    /** The arrival step of `update`; the result says the callback fired. */
    method Arrive() returns (fired: bool)
      modifies this
      ensures (Snapshot(), fired) == Arrived(old(Snapshot()))
      ensures gtwallId == old(gtwallId) && tokens == old(tokens)
      ensures messageCount == old(messageCount) && sessionId == old(sessionId)
    {
      fired := false;
      if state == Walking {
        if pending.Some? {
          state := ActionState(pending.value);
          boardTimer := Dwell(pending.value);
          if onArrive {
            fired := true;
            onArrive := false;
          }
        } else {
          state := Idle;
        }
      }
    }

    /** The board dwell step of `update`. */
    method RunDwell(moving: bool, dt: real, d: Draws, dist: real)
      modifies this
      ensures Snapshot() == Dwelt(old(Snapshot()), moving, dt, d, dist)
      ensures gtwallId == old(gtwallId) && tokens == old(tokens)
      ensures messageCount == old(messageCount) && sessionId == old(sessionId)
    {
      if (state == Posting || state == Reading) && !moving {
        boardTimer := boardTimer - dt;
        if boardTimer <= 0.0 {
          GoHome(d, dist);
        }
      }
    }

    /** The wander step of `update`. */
    method Wander(dt: real, d: Draws, dist: real)
      modifies this
      ensures Snapshot() == Wandered(old(Snapshot()), dt, d, dist)
      ensures gtwallId == old(gtwallId) && tokens == old(tokens)
      ensures messageCount == old(messageCount) && sessionId == old(sessionId)
    {
      if state != Idle {
        return;
      }
      wanderTimer := wanderTimer - dt;
      if wanderTimer > 0.0 {
        return;
      }
      if inPen && penBounds.Some? {
        var b := penBounds.value;
        wanderTimer := 5.0 + d.a * 8.0;
        target := Point(Clamp(b.xMin + 0.3, b.xMax - 0.3, home.x + (d.b - 0.5) * 1.5),
                        Clamp(b.zMin + 0.3, b.zMax - 0.3, home.z + (d.c - 0.5) * 1.5));
        remaining := dist;
        state := Walking;
      } else if status != "complete" {
        wanderTimer := 8.0 + d.a * 12.0;
        state := Walking;
        target := Point(home.x + (d.b - 0.5) * 2.5, home.z + (d.c - 0.5) * 2.5);
        remaining := dist;
      }
    }

    /** `update(dt)`; the result says the arrival callback fired. */
    method Update(dt: real, d: Draws, dist: real) returns (fired: bool)
      modifies this
      ensures (Snapshot(), fired) == Updated(old(Snapshot()), dt, d, dist)
      ensures gtwallId == old(gtwallId) && tokens == old(tokens)
      ensures messageCount == old(messageCount) && sessionId == old(sessionId)
    {
      fired := false;
      if !loaded {
        return;
      }
      var moving := remaining > ArriveDistance;
      if moving {
        Move(dt);
      } else {
        fired := Arrive();
      }
      RunDwell(moving, dt, d, dist);
      Wander(dt, d, dist);
    }
  }
}
