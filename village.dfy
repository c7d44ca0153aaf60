/** The 2-D village: the map loader and its landmark table, the choice of
    a goose's destination building, the reconciliation of the delegate
    roster into goose records, speech bubbles, and the animation step that
    walks each goose along its path. */
module Village {
  import opened Wrappers
  import opened Text
  import opened Buildings
  import opened Tiles
  import opened Grid
  import opened Pathfinder
  import opened Messages

  const SpeechDurationMs: real := 8000.0
  const SpeechMaxLength: nat := 120
  const GooseSpeedPxPerSec: real := 160.0
  const DtClampSec: real := 0.05
  const MapMarker: string := "[Map]"

  // ---------------------------------------------------------------- map text

  /** The first index at or after `from` where `pat` occurs in `s`. */
  function IndexOf(s: string, pat: string, from: nat := 0): (r: Option<nat>)
    decreases |s| - from
    ensures r.Some? ==> from <= r.value <= |s| - |pat|
  {
    if from + |pat| > |s| then None
    else if s[from..from + |pat|] == pat then Some(from)
    else IndexOf(s, pat, from + 1)
  }

  /** `IndexOf` finds the first occurrence at or after `from`, and reports none only when there is none. */
  lemma {:induction false} IndexOfSpec(s: string, pat: string, from: nat)
    decreases |s| - from
    ensures var r := IndexOf(s, pat, from);
      (r.Some? ==> OccursAt(s, r.value, pat) && forall j :: from <= j < r.value ==> !OccursAt(s, j, pat)) &&
      (r.None? ==> forall j :: from <= j ==> !OccursAt(s, j, pat))
  {
    if from + |pat| > |s| {
    } else if s[from..from + |pat|] == pat {
    } else {
      IndexOfSpec(s, pat, from + 1);
    }
  }

  /** `config.split('[Map]')[1] || ''`: the text between the first and the
      second map marker, or to the end when there is no second one. */
  function MapSection(config: string): string {
    match IndexOf(config, MapMarker)
    case None => ""
    case Some(i) =>
      var rest := config[i + |MapMarker|..];
      match IndexOf(rest, MapMarker)
      case None => rest
      case Some(j) => rest[..j]
  }

  /** `IndexOf` from the start finds the first occurrence. */
  lemma IndexOfFirst(s: string, pat: string, i: nat)
    requires OccursAt(s, i, pat)
    requires forall j :: 0 <= j < i ==> !OccursAt(s, j, pat)
    ensures IndexOf(s, pat) == Some(i)
  {
    IndexOfSpec(s, pat, 0);
  }

  /** A marker can only start at a `[`. */
  lemma NoMarkerIn(s: string, n: nat)
    requires n <= |s| && '[' !in s[..n]
    ensures forall j :: 0 <= j < n ==> !OccursAt(s, j, MapMarker)
  {
    forall j | 0 <= j < n ensures !OccursAt(s, j, MapMarker) {
      assert s[..n][j] == s[j];
      assert MapMarker[0] == '[';
    }
  }

  /** With a single marker, the section is everything after it. */
  lemma MapSectionAfterMarker(pre: string, body: string)
    requires '[' !in pre && '[' !in body
    ensures MapSection(pre + MapMarker + body) == body
  {
    var a := pre + MapMarker + body;
    assert a[..|pre|] == pre;
    NoMarkerIn(a, |pre|);
    assert a[|pre|..|pre| + |MapMarker|] == MapMarker;
    IndexOfFirst(a, MapMarker, |pre|);
    assert a[|pre| + |MapMarker|..] == body;
    assert body[..|body|] == body;
    NoMarkerIn(body, |body|);
    IndexOfSpec(body, MapMarker, 0);
  }

  /** With a second marker, the section stops before it. */
  lemma MapSectionBetweenMarkers(pre: string, body: string, post: string)
    requires '[' !in pre && '[' !in body
    ensures MapSection(pre + MapMarker + body + MapMarker + post) == body
  {
    var b := pre + MapMarker + body + MapMarker + post;
    assert b[..|pre|] == pre;
    NoMarkerIn(b, |pre|);
    assert b[|pre|..|pre| + |MapMarker|] == MapMarker;
    IndexOfFirst(b, MapMarker, |pre|);
    var rest := b[|pre| + |MapMarker|..];
    assert rest == body + MapMarker + post;
    assert rest[..|body|] == body;
    NoMarkerIn(rest, |body|);
    assert rest[|body|..|body| + |MapMarker|] == MapMarker;
    IndexOfFirst(rest, MapMarker, |body|);
  }

  // -------------------------------------------------------------- landmarks

  /** Cell `c` of the grid holds the map character of building `k`
      (see `KeyOfFollowsTable` for its agreement with `BUILDINGS`). */
  predicate LandmarkAt(grid: Map, c: Cell, k: Key) {
    0 <= c.y < |grid| && 0 <= c.x < |grid[c.y]| &&
    KeyOf(grid[c.y][c.x]) == Some(k)
  }

  /** `a` comes strictly before `b` in row-major order. */
  predicate Before(a: Cell, b: Cell) {
    a.y < b.y || (a.y == b.y && a.x < b.x)
  }

  /** Cell `c` comes before position (`x`, `y`) of the scan. */
  predicate Seen(c: Cell, y: int, x: int) {
    c.y < y || (c.y == y && c.x < x)
  }

  /** One step of the scan: a building character records its cell under
      the building's key, replacing any earlier cell. */
  function Mark(m: map<Key, Cell>, c: char, at: Cell): map<Key, Cell> {
    match KeyOf(c)
    case Some(k) => m[k := at]
    case None => m
  }

  /** The table after scanning the first `x` cells of row `y`, from `m`. */
  function ScanRow(row: seq<char>, y: int, x: nat, m: map<Key, Cell>): map<Key, Cell>
    requires x <= |row|
  {
    if x == 0 then m else Mark(ScanRow(row, y, x - 1, m), row[x - 1], Cell(x - 1, y))
  }

  /** The table after scanning the first `y` rows. */
  function ScanRows(grid: Map, y: nat): map<Key, Cell>
    requires y <= |grid|
  {
    if y == 0 then map[] else ScanRow(grid[y - 1], y - 1, |grid[y - 1]|, ScanRows(grid, y - 1))
  }

  /** `BUILDING_POSITIONS` for a grid: the row-major scan of every cell. */
  function Landmarks(grid: Map): map<Key, Cell> {
    ScanRows(grid, |grid|)
  }

  /** What the scan has established once every cell before (`x`, `y`) is
      done: each recorded cell holds its building, and it is the last such
      cell seen so far. */
  ghost predicate ScanInv(grid: Map, m: map<Key, Cell>, y: int, x: int) {
    (forall k :: k in m ==> LandmarkAt(grid, m[k], k) && Seen(m[k], y, x)) &&
    (forall k, c :: LandmarkAt(grid, c, k) && Seen(c, y, x) ==> k in m && !Before(m[k], c))
  }

  /** Scanning one more cell of row `y` keeps the invariant. */
  lemma ScanRowStep(grid: Map, y: int, x: nat, m0: map<Key, Cell>)
    requires 0 <= y < |grid| && x < |grid[y]|
    requires ScanInv(grid, ScanRow(grid[y], y, x, m0), y, x)
    ensures ScanInv(grid, ScanRow(grid[y], y, x + 1, m0), y, x + 1)
  {
    var m := ScanRow(grid[y], y, x, m0);
    var here := Cell(x, y);
    var m' := Mark(m, grid[y][x], here);
    assert ScanRow(grid[y], y, x + 1, m0) == m';
    forall k, c | LandmarkAt(grid, c, k) && Seen(c, y, x + 1)
      ensures k in m' && !Before(m'[k], c)
    {
      if c != here {
        assert Seen(c, y, x);
      }
    }
  }

  lemma {:induction false} ScanRowInv(grid: Map, y: int, x: nat, m: map<Key, Cell>)
    requires 0 <= y < |grid| && x <= |grid[y]|
    requires ScanInv(grid, m, y, 0)
    ensures ScanInv(grid, ScanRow(grid[y], y, x, m), y, x)
  {
    if x > 0 {
      ScanRowInv(grid, y, x - 1, m);
      ScanRowStep(grid, y, x - 1, m);
    }
  }

  lemma {:induction false} ScanRowsInv(grid: Map, y: nat)
    requires y <= |grid|
    ensures ScanInv(grid, ScanRows(grid, y), y, 0)
  {
    if y > 0 {
      ScanRowsInv(grid, y - 1);
      var w := |grid[y - 1]|;
      ScanRowInv(grid, y - 1, w, ScanRows(grid, y - 1));
      var m := ScanRows(grid, y);
      assert ScanInv(grid, m, y - 1, w);
      forall k, c | LandmarkAt(grid, c, k) && Seen(c, y, 0)
        ensures k in m && !Before(m[k], c)
      {
        assert Seen(c, y - 1, w);
      }
    }
  }

  /** The landmark table records a building exactly when its character
      appears on the map, at its last appearance in row-major order. */
  lemma LandmarksAreLastOccurrences(grid: Map, k: Key)
    ensures k in Landmarks(grid) <==> exists c :: LandmarkAt(grid, c, k)
    ensures k in Landmarks(grid) ==> LandmarkAt(grid, Landmarks(grid)[k], k)
    ensures k in Landmarks(grid) ==>
      forall c :: LandmarkAt(grid, c, k) ==> !Before(Landmarks(grid)[k], c)
  {
    ScanRowsInv(grid, |grid|);
    if exists c :: LandmarkAt(grid, c, k) {
      var c :| LandmarkAt(grid, c, k);
      assert Seen(c, |grid|, 0);
    }
  }

  // ------------------------------------------------------- target building

  predicate Settled(status: string) {
    status == "complete" || status == "error" || status == "idle"
  }

  /** `getTargetBuilding(role, status)`; the lookup table `ROLE_TO_BUILDING`
      is used in its written-out form `RoleMap()` (the two are equal by
      `RoleToBuildingIsRoleMap`). A role no building lists that is the name
      of an inherited object member finds that member, which is truthy but
      names no building: that outcome is `None`. */
  function TargetBuilding(role: string, status: string): Option<Key> {
    if Settled(status) then Some(Barn)
    else if role in RoleMap() then Some(RoleMap()[role])
    else if role in ObjectProtoMembers then None
    else Some(Forge)
  }

  /** A settled goose heads for the barn; any other goes to the building
      whose role list names its role, or to the forge when none does,
      except that an inherited member name reaches no building at all; a
      decorative building is never a destination. */
  lemma TargetBuildingRules(role: string, status: string)
    ensures Settled(status) ==> TargetBuilding(role, status) == Some(Barn)
    ensures !Settled(status) ==> forall i :: 0 <= i < |Table()| && role in Table()[i].1.roles ==>
      TargetBuilding(role, status) == Some(Table()[i].1.key)
    ensures !Settled(status) && (forall i :: 0 <= i < |Table()| ==> role !in Table()[i].1.roles) ==>
      TargetBuilding(role, status) == (if role in ObjectProtoMembers then None else Some(Forge))
    ensures TargetBuilding(role, status) != Some(Apothecary) && TargetBuilding(role, status) != Some(Market)
  {
    forall i | 0 <= i < |Table()| && role in Table()[i].1.roles
      ensures role in RoleMap() && RoleMap()[role] == Table()[i].1.key
    {
      RoleMapFollowsTable(i, role);
    }
    if role in RoleMap() {
      RoleMapOnlyListedRoles(role);
    }
  }

  // ------------------------------------------------------------ goose records

  datatype Action = Idle | Walking | Working

  /** A delegate (or the orchestrator session) as the tree reports it;
      absent text fields are `""` and an absent elapsed time is `0.0`. */
  datatype Delegate = Delegate(id: string, name: string, role: string, status: string,
                               elapsedSeconds: real, gtwallId: string)

  /** The delegate tree: the children, the session that launched them, and
      `sender_map` as its entries in enumeration order. */
  datatype Tree = Tree(children: seq<Delegate>, parentSessionId: string,
                       senderMap: seq<(string, string)>)

  /** A goose of the village; `(x, y)` is its pixel position and `target`
      the grid cell it is heading for or standing at. */
  datatype GooseRec = GooseRec(id: string, gtwallId: string, role: string, x: real, y: real,
                               target: Cell, status: string, action: Action, hidden: bool,
                               speech: Option<string>, path: seq<Cell>)

  /** The first session whose id is `id`. */
  function FindSession(sessions: seq<Delegate>, id: string): (r: Option<Delegate>)
    ensures r.Some? ==> r.value in sessions && r.value.id == id
    ensures r.None? ==> forall i :: 0 <= i < |sessions| ==> sessions[i].id != id
  {
    if sessions == [] then None
    else if sessions[0].id == id then Some(sessions[0])
    else FindSession(sessions[1..], id)
  }

  /** The session found is the first with that id: none before it has it. */
  lemma {:induction false} FindSessionFirst(sessions: seq<Delegate>, id: string)
    ensures FindSession(sessions, id).Some? ==>
      exists i :: 0 <= i < |sessions| && sessions[i] == FindSession(sessions, id).value &&
        forall j :: 0 <= j < i ==> sessions[j].id != id
  {
    if sessions != [] && sessions[0].id != id {
      var r := FindSession(sessions[1..], id);
      FindSessionFirst(sessions[1..], id);
      if r.Some? {
        var i :| 0 <= i < |sessions[1..]| && sessions[1..][i] == r.value &&
          forall j :: 0 <= j < i ==> sessions[1..][j].id != id;
        assert sessions[i + 1] == r.value;
        forall j | 0 <= j < i + 1 ensures sessions[j].id != id {
          if j > 0 {
            assert sessions[j] == sessions[1..][j - 1];
          }
        }
      }
    } else if sessions != [] {
      assert sessions[0] == FindSession(sessions, id).value;
    }
  }

  /** The children, followed by the launching session under the role
      `"orchestrator"` unless its name mentions a dashboard. */
  function AllDelegates(tree: Tree, sessions: seq<Delegate>): (all: seq<Delegate>)
    ensures |tree.children| <= |all| <= |tree.children| + 1
    ensures all[..|tree.children|] == tree.children
    ensures |all| == |tree.children| + 1 ==>
      all[|all| - 1].role == "orchestrator" && all[|all| - 1].id == tree.parentSessionId &&
      tree.parentSessionId != "" && !Contains(ToLower(all[|all| - 1].name), "dashboard")
    ensures var found := FindSession(sessions, tree.parentSessionId);
      (tree.parentSessionId != "" && found.Some? && !Contains(ToLower(found.value.name), "dashboard"))
      ==> all == tree.children + [found.value.(role := "orchestrator")]
  {
    if tree.parentSessionId == "" then tree.children
    else match FindSession(sessions, tree.parentSessionId)
      case None => tree.children
      case Some(orch) =>
        if Contains(ToLower(orch.name), "dashboard") then tree.children
        else tree.children + [orch.(role := "orchestrator")]
  }

  function LiveIds(all: seq<Delegate>): set<string> {
    set i | 0 <= i < |all| :: all[i].id
  }

  /** The ids of the first `n` delegates that `keep` accepts. */
  function IdsWhere(all: seq<Delegate>, n: nat, keep: Delegate -> bool): set<string>
    requires n <= |all|
  {
    if n == 0 then {}
    else
      var rest := IdsWhere(all, n - 1, keep);
      if keep(all[n - 1]) then rest + {all[n - 1].id} else rest
  }

  lemma {:induction false} IdsWhereExact(all: seq<Delegate>, n: nat, keep: Delegate -> bool, id: string)
    requires n <= |all|
    ensures id in IdsWhere(all, n, keep) <==> exists j :: 0 <= j < n && all[j].id == id && keep(all[j])
  {
    if n > 0 {
      IdsWhereExact(all, n - 1, keep, id);
      var listed := IdsWhere(all, n - 1, keep);
      if id in IdsWhere(all, n, keep) && id !in listed {
        assert all[n - 1].id == id && keep(all[n - 1]);
      }
      if exists j :: 0 <= j < n && all[j].id == id && keep(all[j]) {
        var j :| 0 <= j < n && all[j].id == id && keep(all[j]);
        if j < n - 1 {
          assert id in listed;
        }
      }
    }
  }

  /** The ids of the first `n` delegates that have somewhere to go. */
  function ReconciledIds(positions: map<Key, Cell>, all: seq<Delegate>, n: nat): set<string>
    requires n <= |all|
  {
    IdsWhere(all, n, d => TargetCell(positions, d).Some?)
  }

  /** A delegate gets a goose exactly when its destination or the barn is
      on the map; so with a barn, every listed delegate has one. */
  lemma {:induction false} ReconciledIdsAreListed(positions: map<Key, Cell>, all: seq<Delegate>, n: nat, id: string)
    requires n <= |all|
    ensures id in ReconciledIds(positions, all, n) <==>
      exists j :: 0 <= j < n && all[j].id == id && TargetCell(positions, all[j]).Some?
    ensures Barn in positions ==> (id in ReconciledIds(positions, all, n) <==>
      exists j :: 0 <= j < n && all[j].id == id)
  {
    ReconciledIdsExact(positions, all, n, id);
    if Barn in positions && exists j :: 0 <= j < n && all[j].id == id {
      var j :| 0 <= j < n && all[j].id == id;
      BarnGivesTarget(positions, all[j]);
    }
  }

  lemma BarnGivesTarget(positions: map<Key, Cell>, d: Delegate)
    requires Barn in positions
    ensures TargetCell(positions, d).Some?
  {
  }

  lemma ReconciledIdsExact(positions: map<Key, Cell>, all: seq<Delegate>, n: nat, id: string)
    requires n <= |all|
    ensures id in ReconciledIds(positions, all, n) <==>
      exists j :: 0 <= j < n && all[j].id == id && TargetCell(positions, all[j]).Some?
  {
    var keep := d => TargetCell(positions, d).Some?;
    assert ReconciledIds(positions, all, n) == IdsWhere(all, n, keep);
    IdsWhereExact(all, n, keep, id);
  }

  /** `delegate.role || inferRole(delegate.name || delegate.id)`. */
  function DelegateRole(d: Delegate): string {
    if d.role != "" then d.role else InferRole(if d.name != "" then d.name else d.id)
  }

  /** The destination cell: the chosen building's landmark, else the barn's. */
  function TargetCell(positions: map<Key, Cell>, d: Delegate): Option<Cell> {
    var k := TargetBuilding(DelegateRole(d), d.status);
    if k.Some? && k.value in positions then Some(positions[k.value])
    else if Barn in positions then Some(positions[Barn])
    else None
  }

  /** A goose goes to its building's landmark when the map has it and to
      the barn's otherwise; it is skipped only on a map without a barn whose
      building is missing too, which is where an inherited member name as
      role always leads. */
  lemma TargetCellRules(positions: map<Key, Cell>, d: Delegate)
    ensures var k := TargetBuilding(DelegateRole(d), d.status);
      k.Some? && k.value in positions ==> TargetCell(positions, d) == Some(positions[k.value])
    ensures Barn in positions ==> TargetCell(positions, d).Some?
    ensures var k := TargetBuilding(DelegateRole(d), d.status);
      k.None? ==> TargetCell(positions, d) == (if Barn in positions then Some(positions[Barn]) else None)
    ensures !Settled(d.status) && DelegateRole(d) in ObjectProtoMembers ==>
      TargetCell(positions, d) == (if Barn in positions then Some(positions[Barn]) else None)
  {
    var role := DelegateRole(d);
    if !Settled(d.status) && role in ObjectProtoMembers && role in RoleMap() {
      RoleMapOnlyListedRoles(role);
    }
  }

  /** Where a goose seen for the first time appears: at the barn (when
      there is one) if it is new or settled for the day, else at its
      destination. */
  function SpawnCell(positions: map<Key, Cell>, d: Delegate, target: Cell): Cell {
    if (d.elapsedSeconds < 10.0 || d.status == "complete" || d.status == "idle") && Barn in positions
    then positions[Barn]
    else target
  }

  function NewGoose(d: Delegate, spawn: Cell): (g: GooseRec)
    ensures g.path == [] && g.action == Idle && !g.hidden && g.speech == None
    ensures g.target == spawn && g.x == (spawn.x * TileSize) as real && g.y == (spawn.y * TileSize) as real
  {
    GooseRec(d.id, if d.gtwallId != "" then d.gtwallId else if d.name != "" then d.name else d.id,
             DelegateRole(d), (spawn.x * TileSize) as real, (spawn.y * TileSize) as real,
             spawn, d.status, Idle, false, None, [])
  }

  /** The record a delegate's goose has once it exists and its status is
      refreshed, before any retargeting. */
  function Prepared(geese: map<string, GooseRec>, positions: map<Key, Cell>, d: Delegate, target: Cell): GooseRec {
    var g := if d.id in geese then geese[d.id] else NewGoose(d, SpawnCell(positions, d, target));
    g.(status := d.status)
  }

  /** The action of a goose at rest: working while active, idle otherwise. */
  function RestingAction(status: string): Action {
    if status == "active" then Working else Idle
  }

  /** A settled goose standing at the barn is tucked away inside it. */
  predicate HiddenAtBarn(positions: map<Key, Cell>, status: string, target: Cell) {
    Barn in positions && (status == "complete" || status == "idle") && target == positions[Barn]
  }

  /** The grid cell containing a pixel position. */
  function CellOf(x: real, y: real): Cell {
    Cell((x / TileSize as real).Floor, (y / TileSize as real).Floor)
  }

  /** A new goose stands on the grid cell of its spawn landmark. */
  lemma SpawnStandsOnItsCell(d: Delegate, spawn: Cell)
    ensures var g := NewGoose(d, spawn); CellOf(g.x, g.y) == spawn
  {
    var g := NewGoose(d, spawn);
    assert g.x / 40.0 == spawn.x as real;
    assert g.y / 40.0 == spawn.y as real;
  }

  // ----------------------------------------------------------------- speech

  predicate IsRecent(m: WallMsg, now: real) {
    m.receivedAt != 0.0 && now - m.receivedAt < SpeechDurationMs
  }

  /** `latestBySender`: each sender's last recent message. */
  function RecentBySender(msgs: seq<WallMsg>, now: real): map<string, WallMsg> {
    if msgs == [] then map[]
    else
      var m := RecentBySender(msgs[..|msgs| - 1], now);
      var last := msgs[|msgs| - 1];
      if IsRecent(last, now) then m[last.senderId := last] else m
  }

  /** A sender has an entry exactly when it sent a recent message, and the
      entry is the last recent message it sent. */
  lemma {:induction false} RecentBySenderIsLatest(msgs: seq<WallMsg>, now: real, s: string)
    ensures s in RecentBySender(msgs, now) <==>
      exists i :: 0 <= i < |msgs| && msgs[i].senderId == s && IsRecent(msgs[i], now)
    ensures s in RecentBySender(msgs, now) ==>
      exists i :: 0 <= i < |msgs| && msgs[i] == RecentBySender(msgs, now)[s] &&
        msgs[i].senderId == s && IsRecent(msgs[i], now) &&
        forall j :: i < j < |msgs| ==> !(msgs[j].senderId == s && IsRecent(msgs[j], now))
  {
    RecentBySenderKeys(msgs, now, s);
    if msgs != [] {
      var n := |msgs| - 1;
      var init := msgs[..n];
      RecentBySenderIsLatest(init, now, s);
      var last := msgs[n];
      if last.senderId == s && IsRecent(last, now) {
        assert msgs[n] == RecentBySender(msgs, now)[s];
      } else if s in RecentBySender(msgs, now) {
        assert s in RecentBySender(init, now);
        assert RecentBySender(msgs, now)[s] == RecentBySender(init, now)[s];
        var i :| 0 <= i < |init| && init[i] == RecentBySender(init, now)[s] &&
          init[i].senderId == s && IsRecent(init[i], now) &&
          forall j :: i < j < |init| ==> !(init[j].senderId == s && IsRecent(init[j], now));
        assert msgs[i] == init[i];
        forall j | i < j < |msgs| ensures !(msgs[j].senderId == s && IsRecent(msgs[j], now)) {
          if j < n {
            assert msgs[j] == init[j];
          }
        }
      }
    }
  }

  lemma {:induction false} RecentBySenderKeys(msgs: seq<WallMsg>, now: real, s: string)
    ensures s in RecentBySender(msgs, now) <==>
      exists i :: 0 <= i < |msgs| && msgs[i].senderId == s && IsRecent(msgs[i], now)
  {
    if msgs != [] {
      var n := |msgs| - 1;
      var init := msgs[..n];
      RecentBySenderKeys(init, now, s);
      var last := msgs[n];
      if last.senderId == s && IsRecent(last, now) {
        assert msgs[n].senderId == s && IsRecent(msgs[n], now);
      } else {
        assert s in RecentBySender(msgs, now) <==> s in RecentBySender(init, now);
        if exists i :: 0 <= i < |msgs| && msgs[i].senderId == s && IsRecent(msgs[i], now) {
          var i :| 0 <= i < |msgs| && msgs[i].senderId == s && IsRecent(msgs[i], now);
          assert init[i] == msgs[i];
        }
        if s in RecentBySender(init, now) {
          var i :| 0 <= i < |init| && init[i].senderId == s && IsRecent(init[i], now);
          assert msgs[i] == init[i];
        }
      }
    }
  }

  /** The last `sender_map` entry naming goose `id`, `""` when none does. */
  function LastSenderFor(entries: seq<(string, string)>, id: string): (s: string)
    ensures s != "" ==> exists i :: 0 <= i < |entries| && entries[i] == (s, id) &&
                                (forall j :: i < j < |entries| ==> entries[j].1 != id)
    ensures (forall i :: 0 <= i < |entries| ==> entries[i].1 != id) ==> s == ""
  {
    if entries == [] then ""
    else if entries[|entries| - 1].1 == id then entries[|entries| - 1].0
    else
      var s := LastSenderFor(entries[..|entries| - 1], id);
      assert forall i :: 0 <= i < |entries| - 1 ==> entries[..|entries| - 1][i] == entries[i];
      s
  }

  /** The sender found is the one of the last entry naming the goose,
      whatever it is (an empty sender included). */
  lemma {:induction false} LastSenderIsLastEntry(entries: seq<(string, string)>, id: string, i: nat)
    requires i < |entries| && entries[i].1 == id
    requires forall j :: i < j < |entries| ==> entries[j].1 != id
    ensures LastSenderFor(entries, id) == entries[i].0
  {
    if i < |entries| - 1 {
      var init := entries[..|entries| - 1];
      assert init[i] == entries[i];
      LastSenderIsLastEntry(init, id, i);
    }
  }

  /** Whose wall messages a goose speaks: the orchestrator's own, else the
      sender mapped to its id, else its wall id. */
  function SenderFor(g: GooseRec, senderMap: seq<(string, string)>): string {
    if g.role == "orchestrator" then "orchestrator"
    else
      var s := LastSenderFor(senderMap, g.id);
      if s != "" then s else g.gtwallId
  }

  /** A bubble's text: at most 120 characters, then `"..."` when cut. */
  function Truncate(text: string): (r: string)
    ensures |text| <= SpeechMaxLength ==> r == text
    ensures |text| > SpeechMaxLength ==> |r| == SpeechMaxLength + 3 && r[..SpeechMaxLength] == text[..SpeechMaxLength]
    ensures |text| > SpeechMaxLength ==> r[SpeechMaxLength..] == "..."
  {
    if |text| > SpeechMaxLength then text[..SpeechMaxLength] + "..." else text
  }

  function SpeechFor(g: GooseRec, senderMap: seq<(string, string)>,
                     latest: map<string, WallMsg>): Option<string> {
    var s := SenderFor(g, senderMap);
    if s in latest then Some(Truncate(latest[s].message)) else None
  }

  /** A goose speaks exactly when its sender has a message younger than
      eight seconds, and then it speaks the (truncated) latest one. */
  lemma SpeechIsLatestRecentMessage(g: GooseRec, tree: Tree, msgs: seq<WallMsg>, now: real)
    ensures var s := SenderFor(g, tree.senderMap);
      SpeechFor(g, tree.senderMap, RecentBySender(msgs, now)).Some? <==>
        exists i :: 0 <= i < |msgs| && msgs[i].senderId == s && IsRecent(msgs[i], now)
    ensures var s := SenderFor(g, tree.senderMap);
      SpeechFor(g, tree.senderMap, RecentBySender(msgs, now)).Some? ==>
        exists i :: 0 <= i < |msgs| && msgs[i].senderId == s && IsRecent(msgs[i], now) &&
          SpeechFor(g, tree.senderMap, RecentBySender(msgs, now)).value == Truncate(msgs[i].message) &&
          forall j :: i < j < |msgs| ==> !(msgs[j].senderId == s && IsRecent(msgs[j], now))
  {
    RecentBySenderIsLatest(msgs, now, SenderFor(g, tree.senderMap));
  }

  // ------------------------------------------------------------- animation

  function Min(a: real, b: real): real {
    if a <= b then a else b
  }

  /** Pixels a goose may cover in the frame at `now` after one at `last`
      (milliseconds), with the frame time capped at 0.05 s. */
  /** The farthest a goose walks in one frame: 160 px/s for the clamped 0.05 s. */
  const MaxFrameStep: real := GooseSpeedPxPerSec * DtClampSec

  function FrameSpeed(now: real, last: real): (speed: real)
    ensures speed <= MaxFrameStep
    ensures now >= last ==> 0.0 <= speed
    ensures now - last <= 50.0 ==> speed == GooseSpeedPxPerSec * (now - last) / 1000.0
  {
    GooseSpeedPxPerSec * Min((now - last) / 1000.0, DtClampSec)
  }

  /** `Math.sqrt(dx * dx + dy * dy)`, the length of the vector (dx, dy),
      is a parameter `norm` of the frame functions; this is what they
      require of it. */
  ghost predicate IsNorm(norm: (real, real) -> real) {
    forall dx, dy :: 0.0 <= norm(dx, dy) && norm(dx, dy) * norm(dx, dy) == dx * dx + dy * dy
  }

  /** One frame for a goose with a path: snap to the next node and drop it
      when it is closer than `speed`, else move `speed` pixels towards it.
      The flag reports that the goose reached the end of its path. */
  function StepGoose(g: GooseRec, speed: real, norm: (real, real) -> real,
                     positions: map<Key, Cell>): (r: (GooseRec, bool))
    requires g.path != [] && IsNorm(norm)
    ensures r.0.id == g.id && r.0.gtwallId == g.gtwallId && r.0.role == g.role
    ensures r.0.target == g.target && r.0.status == g.status && r.0.speech == g.speech
    ensures r.1 <==> r.0.path == []
  {
    var node := g.path[0];
    var tx := (node.x * TileSize) as real;
    var ty := (node.y * TileSize) as real;
    var dx := tx - g.x;
    var dy := ty - g.y;
    var dist := norm(dx, dy);
    if dist < speed then
      var rest := g.path[1..];
      if rest == [] then
        (g.(x := tx, y := ty, path := rest, action := RestingAction(g.status),
            hidden := g.hidden || HiddenAtBarn(positions, g.status, g.target)), true)
      else
        (g.(x := tx, y := ty, path := rest, action := Walking), false)
    else if dist == 0.0 then
      (g.(action := Walking), false)
    else
      (g.(x := g.x + dx / dist * speed, y := g.y + dy / dist * speed, action := Walking), false)
  }

  /** A frame for any goose: one without a path stays as it is. */
  function Advance(g: GooseRec, speed: real, norm: (real, real) -> real,
                   positions: map<Key, Cell>): (r: (GooseRec, bool))
    requires IsNorm(norm)
    ensures g.path == [] ==> r == (g, false)
  {
    if g.path == [] then (g, false) else StepGoose(g, speed, norm, positions)
  }

  /** Moving `speed` pixels along a vector of length `dist >= speed`
      covers the fraction `speed / dist` of it. */
  lemma SegmentFraction(dx: real, dy: real, dist: real, speed: real)
    requires 0.0 <= speed <= dist && dist != 0.0
    ensures var t := speed / dist;
      0.0 <= t <= 1.0 && dx / dist * speed == t * dx && dy / dist * speed == t * dy
  {
    var t := speed / dist;
    assert t * dist == speed;
    assert dist > 0.0;
    assert dx / dist * speed == dx * speed / dist;
  }

  /** (x, y) lies the fraction `t` of the way from (x0, y0) along (dx, dy). */
  predicate AlongBy(x0: real, y0: real, dx: real, dy: real, t: real, x: real, y: real) {
    0.0 <= t <= 1.0 && x == x0 + t * dx && y == y0 + t * dy
  }

  /** The fraction of the way to its next node a goose covers in a frame. */
  function StepFraction(dist: real, speed: real): real {
    if dist < speed then 1.0 else if dist == 0.0 then 0.0 else speed / dist
  }

  /** The goose never passes its next node: a frame leaves it on the
      straight segment from where it stood to that node, at the node
      itself exactly when it was closer than `speed` (and then the node is
      dropped from the path), else `speed / dist` of the way along. */
  lemma StepNeverOvershoots(g: GooseRec, speed: real, norm: (real, real) -> real,
                            positions: map<Key, Cell>)
    requires g.path != [] && 0.0 <= speed && IsNorm(norm)
    ensures var r := StepGoose(g, speed, norm, positions).0;
      var dx := (g.path[0].x * TileSize) as real - g.x;
      var dy := (g.path[0].y * TileSize) as real - g.y;
      AlongBy(g.x, g.y, dx, dy, StepFraction(norm(dx, dy), speed), r.x, r.y)
    ensures var r := StepGoose(g, speed, norm, positions).0;
      var dx := (g.path[0].x * TileSize) as real - g.x;
      var dy := (g.path[0].y * TileSize) as real - g.y;
      r.path == g.path[1..] <==> (r.x == g.x + dx && r.y == g.y + dy && norm(dx, dy) < speed)
    ensures var r := StepGoose(g, speed, norm, positions).0;
      var dx := (g.path[0].x * TileSize) as real - g.x;
      var dy := (g.path[0].y * TileSize) as real - g.y;
      speed <= norm(dx, dy) ==> r.path == g.path
  {
    var tx := (g.path[0].x * TileSize) as real;
    var ty := (g.path[0].y * TileSize) as real;
    var dx := tx - g.x;
    var dy := ty - g.y;
    var dist := norm(dx, dy);
    var r := StepGoose(g, speed, norm, positions).0;
    if dist < speed {
    } else if dist == 0.0 {
      assert |r.path| == |g.path|;
    } else {
      SegmentFraction(dx, dy, dist, speed);
      assert |r.path| == |g.path|;
    }
  }

  /** A frame covers at most `speed` of the distance to the next node. */
  lemma StepFractionBounded(dist: real, speed: real)
    requires 0.0 <= dist && 0.0 <= speed
    ensures 0.0 <= StepFraction(dist, speed) * dist <= speed
  {
    if speed <= dist && dist != 0.0 {
      assert speed / dist * dist == speed;
    }
  }

  lemma SquareBelow(a: real, b: real)
    requires 0.0 <= a <= b
    ensures a * a <= b * b
  {
    assert a * a <= a * b;
    assert a * b <= b * b;
  }

  /** The square of the distance between two goose positions. */
  function Moved2(g: GooseRec, r: GooseRec): real {
    (r.x - g.x) * (r.x - g.x) + (r.y - g.y) * (r.y - g.y)
  }

  /** A frame moves a goose no more than `speed` pixels. */
  lemma StepMovesAtMostSpeed(g: GooseRec, speed: real, norm: (real, real) -> real,
                             positions: map<Key, Cell>)
    requires g.path != [] && 0.0 <= speed && IsNorm(norm)
    ensures Moved2(g, StepGoose(g, speed, norm, positions).0) <= speed * speed
  {
    var dx := (g.path[0].x * TileSize) as real - g.x;
    var dy := (g.path[0].y * TileSize) as real - g.y;
    var dist := norm(dx, dy);
    var t := StepFraction(dist, speed);
    var r := StepGoose(g, speed, norm, positions).0;
    StepNeverOvershoots(g, speed, norm, positions);
    assert AlongBy(g.x, g.y, dx, dy, t, r.x, r.y);
    assert 0.0 <= dist && dist * dist == dx * dx + dy * dy;
    StepFractionBounded(dist, speed);
    AlongMovesAtMost(g, r, dx, dy, t, dist, speed);
  }

  /** A goose moved the fraction `t` of the way along a vector of length
      `dist` lies within `t * dist` of where it stood. */
  lemma AlongMovesAtMost(g: GooseRec, r: GooseRec, dx: real, dy: real, t: real, dist: real,
                         speed: real)
    requires AlongBy(g.x, g.y, dx, dy, t, r.x, r.y)
    requires 0.0 <= dist && dist * dist == dx * dx + dy * dy
    requires 0.0 <= t * dist <= speed
    ensures Moved2(g, r) <= speed * speed
  {
    assert r.x - g.x == t * dx && r.y - g.y == t * dy;
    calc {
      (t * dx) * (t * dx) + (t * dy) * (t * dy);
      (t * t) * (dx * dx + dy * dy);
      (t * t) * (dist * dist);
      (t * dist) * (t * dist);
    }
    SquareBelow(t * dist, speed);
  }

  /** Reaching the last node puts the goose at rest: working while active,
      idle otherwise, and hidden when settled at the barn. */
  lemma ArrivalRests(g: GooseRec, speed: real, norm: (real, real) -> real,
                     positions: map<Key, Cell>)
    requires g.path != [] && IsNorm(norm)
    requires StepGoose(g, speed, norm, positions).1
    ensures var r := StepGoose(g, speed, norm, positions).0;
      r.action == RestingAction(g.status) &&
      (HiddenAtBarn(positions, g.status, g.target) ==> r.hidden) &&
      (r.hidden <==> g.hidden || HiddenAtBarn(positions, g.status, g.target)) &&
      |g.path| == 1 && r.x == (g.path[0].x * TileSize) as real && r.y == (g.path[0].y * TileSize) as real
  {
  }

  /** Moving along keeps the goose walking. */
  lemma StillWalking(g: GooseRec, speed: real, norm: (real, real) -> real,
                     positions: map<Key, Cell>)
    requires g.path != [] && IsNorm(norm)
    requires !StepGoose(g, speed, norm, positions).1
    ensures StepGoose(g, speed, norm, positions).0.action == Walking
    ensures StepGoose(g, speed, norm, positions).0.hidden == g.hidden
  {
  }

  // ----------------------------------------------------------------- state

  /** The village module's mutable state: the parsed map and its landmark
      table, the goose records by delegate id, and the animation loop. */
  class VillageState {
    var grid: Map
    var positions: map<Key, Cell>
    var mapWidth: int
    var mapHeight: int
    var geese: map<string, GooseRec>
    var loopRunning: bool
    var visible: bool
    var lastTime: real

    /** The module's load: empty state, and the grid, landmarks and pixel
        size that `initMap()` computes from the map text. */
    constructor (config: string)
      ensures grid == TextLines(MapSection(config)) && positions == Landmarks(grid)
      ensures mapWidth == (if |grid| > 0 then |grid[0]| else 0) * TileSize
      ensures mapHeight == |grid| * TileSize
      ensures geese == map[] && !loopRunning && visible && lastTime == 0.0
    {
      var rows, found, width, height := InitMap(config);
      grid := rows;
      positions := found;
      mapWidth := width;
      mapHeight := height;
      geese := map[];
      loopRunning := false;
      visible := true;
      lastTime := 0.0;
    }

    /** `startLoop()`: starts the frame loop unless it already runs;
        `now` is the `performance.now()` reading. */
    method StartLoop(now: real)
      modifies this
      ensures loopRunning
      ensures lastTime == if old(loopRunning) then old(lastTime) else now
      ensures grid == old(grid) && positions == old(positions) && geese == old(geese)
      ensures visible == old(visible)
    {
      if loopRunning {
        return;
      }
      loopRunning := true;
      lastTime := now;
    }

    /** `setVillageVisible(v)`. */
    method SetVillageVisible(v: bool, now: real)
      modifies this
      ensures visible == v
      ensures v ==> loopRunning && lastTime == if old(loopRunning) then old(lastTime) else now
      ensures !v ==> loopRunning == old(loopRunning) && lastTime == old(lastTime)
      ensures grid == old(grid) && positions == old(positions) && geese == old(geese)
    {
      visible := v;
      if v {
        StartLoop(now);
      }
    }

    /** The `visibilitychange` handler: when the tab shows again and some
        goose still has a path, the loop restarts. */
    method OnVisibilityChange(tabVisible: bool, now: real)
      modifies this
      ensures loopRunning == (old(loopRunning) ||
        (tabVisible && exists id :: id in geese && geese[id].path != []))
      ensures loopRunning && !old(loopRunning) ==> lastTime == now
      ensures !(loopRunning && !old(loopRunning)) ==> lastTime == old(lastTime)
      ensures grid == old(grid) && positions == old(positions) && geese == old(geese)
      ensures visible == old(visible)
    {
      if !tabVisible {
        return;
      }
      if exists id :: id in geese && geese[id].path != [] {
        StartLoop(now);
      }
    }

    /** One animation frame at time `now`: every goose with a path takes
        a step, and the loop ends when none has one. The result says that
        some goose finished its path and the village must be redrawn. */
    method Tick(now: real, tabHidden: bool, norm: (real, real) -> real) returns (needsRender: bool)
      requires IsNorm(norm)
      modifies this
      ensures tabHidden || !old(visible) ==>
        !loopRunning && !needsRender && geese == old(geese) && lastTime == old(lastTime)
      ensures !(tabHidden || !old(visible)) ==>
        var speed := FrameSpeed(now, old(lastTime));
        lastTime == now && geese == AdvanceAll(old(geese), speed, norm, positions) &&
        needsRender == AnyArrival(old(geese), speed, norm, positions) &&
        loopRunning == (old(loopRunning) && AnyPath(old(geese)))
      ensures now >= old(lastTime) ==> forall id :: id in old(geese) ==>
        Moved2(old(geese)[id], geese[id]) <= MaxFrameStep * MaxFrameStep
      ensures grid == old(grid) && positions == old(positions) && visible == old(visible)
    {
      if tabHidden || !visible {
        loopRunning := false;
        return false;
      }
      var speed := FrameSpeed(now, lastTime);
      lastTime := now;
      var pos := positions;
      var step := g => Advance(g, speed, norm, pos);
      var next, hasActivePath, arrived := StepAll(geese, step);
      StepIsFrame(geese, step, speed, norm, pos);
      if now >= old(lastTime) {
        FrameMovesAtMost(geese, now, old(lastTime), norm, pos);
      }
      geese := next;
      needsRender := arrived;
      if !hasActivePath {
        loopRunning := false;
      }
    }

    /** Brings one delegate's goose up to date: creates it at its spawn
        cell when first seen, refreshes its status, and retargets it when
        its destination moved and a path there exists; a goose that stays
        put rests, working or idle, hidden when settled at the barn. */
    method ReconcileDelegate(d: Delegate, now: real)
      modifies this
      ensures grid == old(grid) && positions == old(positions) && visible == old(visible)
      ensures DelegateStep(grid, positions, old(geese), d, geese)
      ensures WalkedIn(positions, old(geese), geese, d) ==>
        loopRunning && lastTime == (if old(loopRunning) then old(lastTime) else now)
      ensures !WalkedIn(positions, old(geese), geese, d) ==>
        loopRunning == old(loopRunning) && lastTime == old(lastTime)
    {
      var target := TargetCell(positions, d);
      if target.None? {
        return;
      }
      var t := target.value;
      var g := Prepared(geese, positions, d, t);
      if g.target != t {
        var next, walking := Retarget(grid, g, t);
        if walking {
          geese := geese[d.id := next];
          StartLoop(now);
          return;
        }
      } else if g.path == [] {
        g := g.(action := RestingAction(d.status), hidden := HiddenAtBarn(positions, g.status, g.target));
      }
      geese := geese[d.id := g];
    }

    /** Drops every goose whose id is not in `live`. */
    method Retire(live: set<string>)
      modifies this
      ensures geese == map id | id in old(geese) && id in live :: old(geese)[id]
      ensures grid == old(grid) && positions == old(positions) && visible == old(visible)
      ensures loopRunning == old(loopRunning) && lastTime == old(lastTime)
    {
      var kept := geese;
      var todo := geese.Keys;
      while todo != {}
        invariant todo <= old(geese).Keys
        invariant kept == map id | id in old(geese) && (id in todo || id in live) :: old(geese)[id]
        decreases |todo|
      {
        var id :| id in todo;
        if id !in live {
          kept := map k | k in kept && k != id :: kept[k];
        }
        todo := todo - {id};
      }
      geese := kept;
    }

    /** Sets every goose's speech bubble from the recent messages. */
    method AttachSpeech(senderMap: seq<(string, string)>, latest: map<string, WallMsg>)
      modifies this
      ensures geese == map id | id in old(geese) ::
        old(geese)[id].(speech := SpeechFor(old(geese)[id], senderMap, latest))
      ensures grid == old(grid) && positions == old(positions) && visible == old(visible)
      ensures loopRunning == old(loopRunning) && lastTime == old(lastTime)
    {
      geese := SpeakAll(geese, g => SpeechFor(g, senderMap, latest));
    }

    /** The loop of `updateVillageState` over the delegates, in order.
        Each delegate whose id no other delegate shares ends up with the
        goose one reconciling step makes of the goose it had before the
        loop; a goose no delegate names is left alone. */
    method ReconcileAll(all: seq<Delegate>, now: real)
      modifies this
      ensures TurnsDone(grid, positions, old(geese), geese, all, |all|, old(loopRunning), loopRunning)
      ensures grid == old(grid) && positions == old(positions) && visible == old(visible)
    {
      ghost var geese0, running0 := geese, loopRunning;
      TurnsDoneStart(grid, positions, geese, all, loopRunning);
      for i := 0 to |all|
        invariant grid == old(grid) && positions == old(positions) && visible == old(visible)
        invariant TurnsDone(grid, positions, geese0, geese, all, i, running0, loopRunning)
      {
        ReconcileTurn(all, i, now, geese0, running0);
      }
    }

    /** One turn of the delegate loop, which keeps its invariants. */
    method ReconcileTurn(all: seq<Delegate>, i: nat, now: real,
                         ghost geese0: map<string, GooseRec>, ghost running0: bool)
      requires i < |all|
      requires TurnsDone(grid, positions, geese0, geese, all, i, running0, loopRunning)
      modifies this
      ensures grid == old(grid) && positions == old(positions) && visible == old(visible)
      ensures TurnsDone(grid, positions, geese0, geese, all, i + 1, running0, loopRunning)
    {
      ReconcileDelegate(all[i], now);
      ReconcileStep(grid, positions, geese0, old(geese), geese, all, i, running0, old(loopRunning), loopRunning);
    }

    /** `updateVillageState`: reconciles every delegate in order, retires
        the geese of delegates no longer listed, and attaches speech.
        `now` is `Date.now()` and `perfNow` the `performance.now()` reading
        a restarted loop records. `reconciled` is the goose map between the
        reconciling loop and the retiring step. */
    method UpdateVillageState(tree: Tree, sessions: seq<Delegate>, wallMessages: seq<WallMsg>,
                              now: real, perfNow: real)
      returns (ghost reconciled: map<string, GooseRec>)
      modifies this
      ensures var all := AllDelegates(tree, sessions);
        reconciled.Keys == old(geese).Keys + ReconciledIds(positions, all, |all|)
      ensures var all := AllDelegates(tree, sessions);
        ReconciledUpTo(grid, positions, old(geese), reconciled, all, |all|)
      ensures var all := AllDelegates(tree, sessions);
        WalkersStartLoop(positions, old(geese), reconciled, all, |all|, old(loopRunning), loopRunning)
      ensures var all := AllDelegates(tree, sessions);
        geese == map id | id in reconciled && id in LiveIds(all) ::
          reconciled[id].(speech := SpeechFor(reconciled[id], tree.senderMap, RecentBySender(wallMessages, now)))
      ensures grid == old(grid) && positions == old(positions) && visible == old(visible)
    {
      var all := AllDelegates(tree, sessions);
      ReconcileAll(all, perfNow);
      reconciled := geese;
      var live := LiveIds(all);
      var latest := CollectRecent(wallMessages, now);
      Retire(live);
      AttachSpeech(tree.senderMap, latest);
      RetireThenSpeak(reconciled, live, tree.senderMap, latest);
    }
  }

  /** No delegate other than the `k`-th has its id. */
  predicate Unique(all: seq<Delegate>, k: nat)
    requires k < |all|
  {
    forall j :: 0 <= j < |all| && j != k ==> all[j].id != all[k].id
  }

  /** Two goose maps agree on `id`. */
  predicate SameEntry(m1: map<string, GooseRec>, m2: map<string, GooseRec>, id: string) {
    (id in m1 <==> id in m2) && (id in m1 ==> m1[id] == m2[id])
  }

  /** Goose `g` is what one reconciling step for `d` makes of the geese
      `geese0`: the prepared goose is sent walking along a cheapest route
      when its destination moved and a route exists, left as it is when
      no route exists, rests when it stands at its destination, and keeps
      walking otherwise. */
  ghost predicate Reconciled(grid: Map, positions: map<Key, Cell>, geese0: map<string, GooseRec>,
                             d: Delegate, g: GooseRec)
    requires TargetCell(positions, d).Some?
  {
    var t := TargetCell(positions, d).value;
    var g0 := Prepared(geese0, positions, d, t);
    if g0.target != t then
      (g == g0 && (CellOf(g0.x, g0.y) == t || !Reachable(grid, CellOf(g0.x, g0.y), t))) ||
      WalksTo(grid, g0, t, g)
    else if g0.path == [] then
      g == g0.(action := RestingAction(d.status), hidden := HiddenAtBarn(positions, d.status, t))
    else g == g0
  }

  /** One reconciling step for `d` takes the geese `geese0` to `geese`: a
      delegate with nowhere to go changes nothing; otherwise its goose
      (created when missing) becomes the `Reconciled` one and every other
      goose stays as it was. */
  ghost predicate DelegateStep(grid: Map, positions: map<Key, Cell>, geese0: map<string, GooseRec>,
                               d: Delegate, geese: map<string, GooseRec>)
  {
    if TargetCell(positions, d).None? then geese == geese0
    else
      geese.Keys == geese0.Keys + {d.id} &&
      (forall id :: id in geese0 && id != d.id ==> geese[id] == geese0[id]) &&
      Reconciled(grid, positions, geese0, d, geese[d.id])
  }

  /** The step for `d` sent its goose walking to a new destination. */
  predicate WalkedIn(positions: map<Key, Cell>, geese0: map<string, GooseRec>,
                     geese: map<string, GooseRec>, d: Delegate)
  {
    TargetCell(positions, d).Some? && d.id in geese &&
    var t := TargetCell(positions, d).value;
    Prepared(geese0, positions, d, t).target != t && geese[d.id].target == t
  }

  /** The first `i` delegates with an id of their own are reconciled. */
  ghost predicate ReconciledUpTo(grid: Map, positions: map<Key, Cell>, geese0: map<string, GooseRec>,
                                 geese: map<string, GooseRec>, all: seq<Delegate>, i: nat)
    requires i <= |all|
  {
    forall k :: 0 <= k < i && Unique(all, k) ==>
      if TargetCell(positions, all[k]).Some? then
        all[k].id in geese && Reconciled(grid, positions, geese0, all[k], geese[all[k].id])
      else SameEntry(geese0, geese, all[k].id)
  }

  /** A goose none of the first `i` delegates names is as it was. */
  ghost predicate UntouchedSince(geese0: map<string, GooseRec>, geese: map<string, GooseRec>,
                                 all: seq<Delegate>, i: nat)
    requires i <= |all|
  {
    forall id :: id !in IdsBefore(all, i) ==> SameEntry(geese0, geese, id)
  }

  /** The ids of the first `n` delegates. */
  function IdsBefore(all: seq<Delegate>, n: nat): set<string>
    requires n <= |all|
  {
    if n == 0 then {} else IdsBefore(all, n - 1) + {all[n - 1].id}
  }

  /** An id is among the first `n` exactly when one of those delegates has it. */
  lemma {:induction false} IdsBeforeExact(all: seq<Delegate>, n: nat, id: string)
    requires n <= |all|
    ensures id in IdsBefore(all, n) <==> exists j :: 0 <= j < n && all[j].id == id
  {
    if n > 0 {
      IdsBeforeExact(all, n - 1, id);
      if id == all[n - 1].id {
        assert all[n - 1].id == id;
      }
    }
  }

  /** The loop keeps running once started, and runs once one of the first
      `i` delegates with an id of their own sent its goose walking. */
  predicate WalkersStartLoop(positions: map<Key, Cell>, geese0: map<string, GooseRec>,
                             geese: map<string, GooseRec>, all: seq<Delegate>, i: nat,
                             running0: bool, running: bool)
    requires i <= |all|
  {
    (running0 ==> running) &&
    forall k :: 0 <= k < i && Unique(all, k) && WalkedIn(positions, geese0, geese, all[k]) ==> running
  }

  /** The prepared goose depends on the geese only through the entry of its own id. */
  lemma PreparedLocal(m1: map<string, GooseRec>, m2: map<string, GooseRec>,
                      positions: map<Key, Cell>, d: Delegate, t: Cell)
    requires SameEntry(m1, m2, d.id)
    ensures Prepared(m1, positions, d, t) == Prepared(m2, positions, d, t)
  {
  }

  /** The invariants of the reconciling loop after its first `i` turns. */
  ghost predicate TurnsDone(grid: Map, positions: map<Key, Cell>, geese0: map<string, GooseRec>,
                            geese: map<string, GooseRec>, all: seq<Delegate>, i: nat,
                            running0: bool, running: bool)
    requires i <= |all|
  {
    geese.Keys == geese0.Keys + ReconciledIds(positions, all, i) &&
    ReconciledUpTo(grid, positions, geese0, geese, all, i) &&
    UntouchedSince(geese0, geese, all, i) &&
    WalkersStartLoop(positions, geese0, geese, all, i, running0, running)
  }

  /** Before its first turn the loop's invariants hold. */
  lemma TurnsDoneStart(grid: Map, positions: map<Key, Cell>, geese: map<string, GooseRec>,
                       all: seq<Delegate>, running: bool)
    ensures TurnsDone(grid, positions, geese, geese, all, 0, running, running)
  {
    assert geese.Keys + ReconciledIds(positions, all, 0) == geese.Keys;
  }

  /** One turn of the reconciling loop keeps its invariants. */
  lemma ReconcileStep(grid: Map, positions: map<Key, Cell>, geese0: map<string, GooseRec>,
                      before: map<string, GooseRec>, after: map<string, GooseRec>,
                      all: seq<Delegate>, i: nat, running0: bool, running: bool, running': bool)
    requires i < |all|
    requires ReconciledUpTo(grid, positions, geese0, before, all, i)
    requires UntouchedSince(geese0, before, all, i)
    requires WalkersStartLoop(positions, geese0, before, all, i, running0, running)
    requires before.Keys == geese0.Keys + ReconciledIds(positions, all, i)
    requires DelegateStep(grid, positions, before, all[i], after)
    requires WalkedIn(positions, before, after, all[i]) ==> running'
    requires !WalkedIn(positions, before, after, all[i]) ==> running' == running
    ensures ReconciledUpTo(grid, positions, geese0, after, all, i + 1)
    ensures UntouchedSince(geese0, after, all, i + 1)
    ensures WalkersStartLoop(positions, geese0, after, all, i + 1, running0, running')
    ensures after.Keys == geese0.Keys + ReconciledIds(positions, all, i + 1)
  {
    UntouchedStep(grid, positions, geese0, before, after, all, i);
    UpToStep(grid, positions, geese0, before, after, all, i);
    WalkersStep(grid, positions, geese0, before, after, all, i, running0, running, running');
  }

  /** A goose none of the first `i + 1` delegates names is still as it was. */
  lemma UntouchedStep(grid: Map, positions: map<Key, Cell>, geese0: map<string, GooseRec>,
                      before: map<string, GooseRec>, after: map<string, GooseRec>,
                      all: seq<Delegate>, i: nat)
    requires i < |all|
    requires UntouchedSince(geese0, before, all, i)
    requires DelegateStep(grid, positions, before, all[i], after)
    ensures UntouchedSince(geese0, after, all, i + 1)
  {
    forall id | id !in IdsBefore(all, i + 1)
      ensures SameEntry(geese0, after, id)
    {
      assert all[i].id != id && id !in IdsBefore(all, i);
      assert SameEntry(geese0, before, id);
      assert SameEntry(before, after, id);
    }
  }

  /** Delegate `i`, when its id is its own, is reconciled, and the earlier
      ones stay so. */
  lemma UpToStep(grid: Map, positions: map<Key, Cell>, geese0: map<string, GooseRec>,
                 before: map<string, GooseRec>, after: map<string, GooseRec>,
                 all: seq<Delegate>, i: nat)
    requires i < |all|
    requires ReconciledUpTo(grid, positions, geese0, before, all, i)
    requires UntouchedSince(geese0, before, all, i)
    requires DelegateStep(grid, positions, before, all[i], after)
    ensures ReconciledUpTo(grid, positions, geese0, after, all, i + 1)
  {
    var d := all[i];
    if Unique(all, i) {
      IdsBeforeExact(all, i, d.id);
      assert SameEntry(geese0, before, d.id);
      if TargetCell(positions, d).Some? {
        var t := TargetCell(positions, d).value;
        PreparedLocal(geese0, before, positions, d, t);
      }
    }
    forall k | 0 <= k < i && Unique(all, k)
      ensures SameEntry(before, after, all[k].id)
    {
      assert all[i].id != all[k].id;
    }
  }

  /** A goose that walked off in turn `i` leaves the loop running. */
  lemma WalkersStep(grid: Map, positions: map<Key, Cell>, geese0: map<string, GooseRec>,
                    before: map<string, GooseRec>, after: map<string, GooseRec>,
                    all: seq<Delegate>, i: nat, running0: bool, running: bool, running': bool)
    requires i < |all|
    requires UntouchedSince(geese0, before, all, i)
    requires WalkersStartLoop(positions, geese0, before, all, i, running0, running)
    requires DelegateStep(grid, positions, before, all[i], after)
    requires WalkedIn(positions, before, after, all[i]) ==> running'
    requires !WalkedIn(positions, before, after, all[i]) ==> running' == running
    ensures WalkersStartLoop(positions, geese0, after, all, i + 1, running0, running')
  {
    var d := all[i];
    if Unique(all, i) {
      IdsBeforeExact(all, i, d.id);
      assert SameEntry(geese0, before, d.id);
      if TargetCell(positions, d).Some? {
        var t := TargetCell(positions, d).value;
        PreparedLocal(geese0, before, positions, d, t);
      }
    }
    forall k | 0 <= k < i && Unique(all, k)
      ensures SameEntry(before, after, all[k].id)
    {
      assert all[i].id != all[k].id;
    }
  }

  /** A second update with the same delegate leaves its goose's id, wall
      id, role and status as the first one set them (whatever speech was
      attached in between). */
  lemma ReconcileAgainKeepsIdentity(grid: Map, positions: map<Key, Cell>,
                                    geese0: map<string, GooseRec>, d: Delegate, g: GooseRec,
                                    geese1: map<string, GooseRec>, speech: Option<string>, g2: GooseRec)
    requires TargetCell(positions, d).Some?
    requires Reconciled(grid, positions, geese0, d, g)
    requires d.id in geese1 && geese1[d.id] == g.(speech := speech)
    requires Reconciled(grid, positions, geese1, d, g2)
    ensures g2.id == g.id && g2.gtwallId == g.gtwallId && g2.role == g.role
    ensures g2.status == g.status == d.status
  {
  }

  /** The geese an update keeps are those of listed delegates: a second
      update with the same delegates keeps the same ids. */
  lemma UpdateKeysIdempotent(keys: set<string>, positions: map<Key, Cell>, all: seq<Delegate>)
    ensures var once := (keys + ReconciledIds(positions, all, |all|)) * LiveIds(all);
      (once + ReconciledIds(positions, all, |all|)) * LiveIds(all) == once
  {
    forall id | id in ReconciledIds(positions, all, |all|)
      ensures id in LiveIds(all)
    {
      ReconciledIdsAreListed(positions, all, |all|, id);
    }
  }

  /** Goose `g` is goose `g0` sent walking to `t` along a cheapest route
      from the cell `g0` stands on. */
  ghost predicate WalksTo(grid: Map, g0: GooseRec, t: Cell, g: GooseRec) {
    var start := CellOf(g0.x, g0.y);
    g == g0.(target := t, path := g.path, hidden := false, action := Walking) &&
    IsRoute(grid, start, g.path) && g.path != [] && g.path[|g.path| - 1] == t &&
    forall q :: IsRoute(grid, start, q) && EndOf(start, q) == t ==>
      RouteCost(grid, g.path) <= RouteCost(grid, q)
  }

  /** The retargeting step of `updateVillageState`: a path search from the
      goose's cell; without a path the goose is left as it was. */
  method Retarget(grid: Map, g0: GooseRec, t: Cell) returns (g: GooseRec, walking: bool)
    ensures walking ==> WalksTo(grid, g0, t, g)
    ensures !walking ==> (g == g0 &&
      (CellOf(g0.x, g0.y) == t || !Reachable(grid, CellOf(g0.x, g0.y), t)))
  {
    var start := CellOf(g0.x, g0.y);
    var path, _ := FindPath(grid, start, t);
    walking := path != [];
    g := if walking then g0.(target := t, path := path, hidden := false, action := Walking) else g0;
  }

  /** Retiring and then attaching speech, as one map. */
  lemma RetireThenSpeak(m: map<string, GooseRec>, live: set<string>,
                        senderMap: seq<(string, string)>, latest: map<string, WallMsg>)
    ensures var kept := map id | id in m && id in live :: m[id];
      (map id | id in kept :: kept[id].(speech := SpeechFor(kept[id], senderMap, latest))) ==
      map id | id in m && id in live :: m[id].(speech := SpeechFor(m[id], senderMap, latest))
  {
  }

  /** `initMap()`: the non-empty lines of the map section become the grid,
      a row-major scan records each building's cell, and the grid's size
      in pixels follows from its first row and its row count. */
  method InitMap(config: string) returns (rows: Map, found: map<Key, Cell>, width: int, height: int)
    ensures rows == TextLines(MapSection(config))
    ensures found == Landmarks(rows)
    ensures width == (if |rows| > 0 then |rows[0]| else 0) * TileSize
    ensures height == |rows| * TileSize
  {
    rows := TextLines(MapSection(config));
    width := (if |rows| > 0 then |rows[0]| else 0) * TileSize;
    height := |rows| * TileSize;
    found := ScanLandmarks(rows);
  }

  method ScanLandmarks(rows: Map) returns (found: map<Key, Cell>)
    ensures found == Landmarks(rows)
  {
    found := map[];
    for y := 0 to |rows|
      invariant found == ScanRows(rows, y)
    {
      for x := 0 to |rows[y]|
        invariant found == ScanRow(rows[y], y, x, ScanRows(rows, y))
      {
        var c := rows[y][x];
        match KeyOf(c) {
          case Some(k) => found := found[k := Cell(x, y)];
          case None =>
        }
      }
    }
  }

  /** The frame applied to every goose. */
  function AdvanceAll(geese: map<string, GooseRec>, speed: real, norm: (real, real) -> real,
                      positions: map<Key, Cell>): map<string, GooseRec>
    requires IsNorm(norm)
  {
    map id | id in geese :: Advance(geese[id], speed, norm, positions).0
  }

  /** No goose moves more than `speed` pixels in a frame. */
  lemma AdvanceAllMovesAtMost(geese: map<string, GooseRec>, speed: real, norm: (real, real) -> real,
                              positions: map<Key, Cell>)
    requires 0.0 <= speed && IsNorm(norm)
    ensures forall id :: id in geese ==>
      id in AdvanceAll(geese, speed, norm, positions) &&
      Moved2(geese[id], AdvanceAll(geese, speed, norm, positions)[id]) <= speed * speed
  {
    forall id | id in geese
      ensures Moved2(geese[id], AdvanceAll(geese, speed, norm, positions)[id]) <= speed * speed
    {
      if geese[id].path != [] {
        StepMovesAtMostSpeed(geese[id], speed, norm, positions);
      }
    }
  }

  /** Whatever the time between frames, a goose walks at most `MaxFrameStep` pixels. */
  lemma FrameMovesAtMost(geese: map<string, GooseRec>, now: real, last: real,
                         norm: (real, real) -> real, positions: map<Key, Cell>)
    requires now >= last && IsNorm(norm)
    ensures forall id :: id in geese ==>
      Moved2(geese[id], AdvanceAll(geese, FrameSpeed(now, last), norm, positions)[id]) <=
        MaxFrameStep * MaxFrameStep
  {
    var speed := FrameSpeed(now, last);
    AdvanceAllMovesAtMost(geese, speed, norm, positions);
    SquareBelow(speed, MaxFrameStep);
    BoundWeakens(geese, AdvanceAll(geese, speed, norm, positions), speed * speed, MaxFrameStep * MaxFrameStep);
  }

  lemma BoundWeakens(geese: map<string, GooseRec>, moved: map<string, GooseRec>, a: real, b: real)
    requires a <= b
    requires forall id :: id in geese ==> id in moved && Moved2(geese[id], moved[id]) <= a
    ensures forall id :: id in geese ==> Moved2(geese[id], moved[id]) <= b
  {
  }

  predicate AnyPath(geese: map<string, GooseRec>) {
    exists id :: id in geese && geese[id].path != []
  }

  predicate AnyArrival(geese: map<string, GooseRec>, speed: real, norm: (real, real) -> real,
                       positions: map<Key, Cell>)
    requires IsNorm(norm)
  {
    exists id :: id in geese && Advance(geese[id], speed, norm, positions).1
  }

  /** The geese after `step` is applied to each. */
  function StepEach(geese: map<string, GooseRec>, step: GooseRec -> (GooseRec, bool)): map<string, GooseRec> {
    map id | id in geese :: step(geese[id]).0
  }

  /** Stepping every goose by its frame is the frame applied to every goose. */
  lemma StepIsFrame(geese: map<string, GooseRec>, step: GooseRec -> (GooseRec, bool), speed: real,
                    norm: (real, real) -> real, positions: map<Key, Cell>)
    requires IsNorm(norm)
    requires forall g :: step(g) == Advance(g, speed, norm, positions)
    ensures StepEach(geese, step) == AdvanceAll(geese, speed, norm, positions)
    ensures AnyFlag(geese, step) == AnyArrival(geese, speed, norm, positions)
  {
  }

  /** Some goose's step raises the flag. */
  predicate AnyFlag(geese: map<string, GooseRec>, step: GooseRec -> (GooseRec, bool)) {
    exists id :: id in geese && step(geese[id]).1
  }

  /** What the loop of `tick` has done once the ids outside `todo` are
      visited: those geese have taken their step, and the flags say whether
      any of them had a path and whether any step raised its flag. */
  ghost predicate StepAllInv(geese: map<string, GooseRec>, step: GooseRec -> (GooseRec, bool),
                             todo: set<string>, next: map<string, GooseRec>,
                             hasActivePath: bool, needsRender: bool) {
    todo <= geese.Keys && next.Keys == geese.Keys &&
    (forall id :: id in geese ==> next[id] == (if id in todo then geese[id] else step(geese[id]).0)) &&
    (hasActivePath <==> exists id :: id in geese && id !in todo && geese[id].path != []) &&
    (needsRender <==> exists id :: id in geese && id !in todo && step(geese[id]).1)
  }

  lemma StepAllVisit(geese: map<string, GooseRec>, step: GooseRec -> (GooseRec, bool),
                     todo: set<string>, next: map<string, GooseRec>,
                     hasActivePath: bool, needsRender: bool, id: string)
    requires StepAllInv(geese, step, todo, next, hasActivePath, needsRender) && id in todo
    ensures StepAllInv(geese, step, todo - {id}, next[id := step(geese[id]).0],
                       hasActivePath || geese[id].path != [], needsRender || step(geese[id]).1)
    ensures |todo - {id}| < |todo|
  {
  }

  lemma StepAllDone(geese: map<string, GooseRec>, step: GooseRec -> (GooseRec, bool),
                    next: map<string, GooseRec>, hasActivePath: bool, needsRender: bool)
    requires StepAllInv(geese, step, {}, next, hasActivePath, needsRender)
    ensures next == StepEach(geese, step)
    ensures hasActivePath == AnyPath(geese)
    ensures needsRender == AnyFlag(geese, step)
  {
  }

  /** The loop of `tick` over the geese, for the frame's `step` (in `Tick`,
      `Advance`, which leaves a goose without a path as it is); the flags
      report whether any goose had a path and whether any step raised its
      flag. */
  method StepAll(geese: map<string, GooseRec>, step: GooseRec -> (GooseRec, bool))
    returns (next: map<string, GooseRec>, hasActivePath: bool, needsRender: bool)
    ensures next == StepEach(geese, step)
    ensures hasActivePath == AnyPath(geese)
    ensures needsRender == AnyFlag(geese, step)
  {
    next := geese;
    var todo := geese.Keys;
    hasActivePath := false;
    needsRender := false;
    while todo != {}
      invariant StepAllInv(geese, step, todo, next, hasActivePath, needsRender)
      decreases |todo|
    {
      var id :| id in todo;
      StepAllVisit(geese, step, todo, next, hasActivePath, needsRender, id);
      var g := geese[id];
      var r := step(g);
      next := next[id := r.0];
      hasActivePath := hasActivePath || g.path != [];
      needsRender := needsRender || r.1;
      todo := todo - {id};
    }
    StepAllDone(geese, step, next, hasActivePath, needsRender);
  }

  /** The speech loop of `updateVillageState`: each goose's bubble is set
      to what `speech` gives for it. */
  method SpeakAll(geese: map<string, GooseRec>, speech: GooseRec -> Option<string>)
    returns (next: map<string, GooseRec>)
    ensures next == map id | id in geese :: geese[id].(speech := speech(geese[id]))
  {
    next := geese;
    var todo := geese.Keys;
    while todo != {}
      invariant todo <= geese.Keys && next.Keys == geese.Keys
      invariant forall id :: id in geese ==>
        next[id] == (if id in todo then geese[id] else geese[id].(speech := speech(geese[id])))
      decreases |todo|
    {
      var id :| id in todo;
      var g := geese[id];
      next := next[id := g.(speech := speech(g))];
      todo := todo - {id};
    }
  }

  /** The `latestBySender` loop. */
  method CollectRecent(msgs: seq<WallMsg>, now: real) returns (latest: map<string, WallMsg>)
    ensures latest == RecentBySender(msgs, now)
  {
    latest := map[];
    for i := 0 to |msgs|
      invariant latest == RecentBySender(msgs[..i], now)
    {
      assert msgs[..i + 1][..i] == msgs[..i];
      if IsRecent(msgs[i], now) {
        latest := latest[msgs[i].senderId := msgs[i]];
      }
    }
    assert msgs[..|msgs|] == msgs;
  }
}
