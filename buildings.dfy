/** The registry of landmark buildings, the map from roles to buildings
    derived from it, and role inference from a delegate's name
    (ui/js/buildings.js). */
module Buildings {
  import opened Wrappers
  import opened Text

  /** The `key` of each building. The keys are a fixed set of names, so
      they are an enumeration; `KeyName` gives the name. */
  datatype Key = Barn | Library | Inspector | Forge | Factory | Hall | Scriptorium | Apothecary | Market

  function KeyName(k: Key): string {
    match k
    case Barn => "barn"
    case Library => "library"
    case Inspector => "inspector"
    case Forge => "forge"
    case Factory => "factory"
    case Hall => "hall"
    case Scriptorium => "scriptorium"
    case Apothecary => "apothecary"
    case Market => "market"
  }

  /** One entry of `BUILDINGS`; the SVG art is not modelled. */
  datatype Building = Building(key: Key, title: string, roles: seq<string>)

  const BarnBuilding := Building(Barn, "Cozy Barn", ["idle", "complete", "error"])
  const LibraryBuilding := Building(Library, "Grand Archive", ["researcher"])
  const InspectorBuilding := Building(Inspector, "Inspector's Tower", ["reviewer"])
  const ForgeBuilding := Building(Forge, "Steam Forge", ["generic"])
  const FactoryBuilding := Building(Factory, "Cog Factory", ["worker"])
  const HallBuilding := Building(Hall, "Town Hall", ["orchestrator"])
  const ScriptoriumBuilding := Building(Scriptorium, "The Scriptorium", ["writer"])
  /** Decorative buildings: no role, so no goose is routed to them. */
  const ApothecaryBuilding := Building(Apothecary, "Apothecary", [])
  const MarketBuilding := Building(Market, "Market", [])

  /** `BUILDINGS`, in its declaration order, keyed by map character. */
  function Table(): seq<(char, Building)> {
    [ ('B', BarnBuilding), ('L', LibraryBuilding), ('I', InspectorBuilding),
      ('F', ForgeBuilding), ('C', FactoryBuilding), ('H', HallBuilding),
      ('W', ScriptoriumBuilding), ('S', ApothecaryBuilding), ('M', MarketBuilding) ]
  }

  /** The six roles `inferRole` documents. */
  const Roles: seq<string> := ["orchestrator", "researcher", "worker", "reviewer", "writer", "generic"]

  /** The map characters reserved for decorations. */
  const ReservedDecorationChars: seq<char> := ['T', 'O', 'R', 'G']

  /** The building of the first entry of `t` from index `i` on keyed by `c`. */
  function Lookup(t: seq<(char, Building)>, c: char, i: nat := 0): Option<Building>
    decreases |t| - i
  {
    if i >= |t| then None
    else if t[i].0 == c then Some(t[i].1)
    else Lookup(t, c, i + 1)
  }

  lemma {:induction false} LookupFindsKeys(t: seq<(char, Building)>, c: char, i: nat)
    requires i <= |t|
    ensures Lookup(t, c, i).Some? <==> exists j :: i <= j < |t| && t[j].0 == c
    decreases |t| - i
  {
    if i < |t| {
      LookupFindsKeys(t, c, i + 1);
    }
  }

  /** `BUILDINGS[c]`. */
  function BuildingFor(c: char): Option<Building> {
    Lookup(Table(), c)
  }

  /** `BUILDING_CHARS = Object.keys(BUILDINGS)`. */
  function BuildingChars(): (cs: seq<char>)
    ensures |cs| == |Table()| && forall i :: 0 <= i < |cs| ==> cs[i] == Table()[i].0
  {
    seq(|Table()|, i requires 0 <= i < |Table()| => Table()[i].0)
  }

  predicate IsBuildingChar(c: char) {
    c in BuildingChars()
  }

  /** The building characters, written out in declaration order. */
  lemma BuildingCharsListed()
    ensures BuildingChars() == ['B', 'L', 'I', 'F', 'C', 'H', 'W', 'S', 'M']
  {
  }

  /** `BUILDING_CHARS` lists exactly the characters `BUILDINGS` has an
      entry for, and none of them is a reserved decoration character. */
  lemma BuildingCharsAreTableKeys(c: char)
    ensures IsBuildingChar(c) <==> BuildingFor(c).Some?
    ensures c in ReservedDecorationChars ==> !IsBuildingChar(c)
  {
    LookupFindsKeys(Table(), c, 0);
    var cs := BuildingChars();
    if IsBuildingChar(c) {
      var j :| 0 <= j < |cs| && cs[j] == c;
      assert Table()[j].0 == c;
    }
    BuildingCharsListed();
  }

  /** The key of the building a map character stands for. */
  function KeyOf(c: char): Option<Key> {
    match c
    case 'B' => Some(Barn)
    case 'L' => Some(Library)
    case 'I' => Some(Inspector)
    case 'F' => Some(Forge)
    case 'C' => Some(Factory)
    case 'H' => Some(Hall)
    case 'W' => Some(Scriptorium)
    case 'S' => Some(Apothecary)
    case 'M' => Some(Market)
    case _ => None
  }

  /** `KeyOf(c)` is the key of `BUILDINGS[c]`, present exactly when the
      entry is. */
  lemma KeyOfFollowsTable(c: char)
    ensures KeyOf(c).Some? <==> BuildingFor(c).Some?
    ensures KeyOf(c).Some? ==> KeyOf(c).value == BuildingFor(c).value.key
  {
    var t := Table();
    assert Lookup(t, c, 9).None?;
    assert Lookup(t, c, 8) == if c == 'M' then Some(MarketBuilding) else None;
    assert Lookup(t, c, 7) == if c == 'S' then Some(ApothecaryBuilding) else Lookup(t, c, 8);
    assert Lookup(t, c, 6) == if c == 'W' then Some(ScriptoriumBuilding) else Lookup(t, c, 7);
    assert Lookup(t, c, 5) == if c == 'H' then Some(HallBuilding) else Lookup(t, c, 6);
    assert Lookup(t, c, 4) == if c == 'C' then Some(FactoryBuilding) else Lookup(t, c, 5);
    assert Lookup(t, c, 3) == if c == 'F' then Some(ForgeBuilding) else Lookup(t, c, 4);
    assert Lookup(t, c, 2) == if c == 'I' then Some(InspectorBuilding) else Lookup(t, c, 3);
    assert Lookup(t, c, 1) == if c == 'L' then Some(LibraryBuilding) else Lookup(t, c, 2);
  }

  /** `Object.entries(BUILDINGS).flatMap(([, b]) => b.roles.map((r) => [r, b.key]))`,
      from row `i` on. */
  function RoleEntries(t: seq<(char, Building)>, i: nat := 0): seq<(string, Key)>
    decreases |t| - i
  {
    if i >= |t| then [] else PairRoles(t[i].1.roles, t[i].1.key) + RoleEntries(t, i + 1)
  }

  function PairRoles(roles: seq<string>, key: Key): (es: seq<(string, Key)>)
    ensures |es| == |roles|
    ensures forall i :: 0 <= i < |es| ==> es[i] == (roles[i], key)
  {
    if |roles| == 0 then [] else [(roles[0], key)] + PairRoles(roles[1..], key)
  }

  /** `Object.fromEntries(es)`: a later entry overwrites an earlier one. */
  function FromEntries(es: seq<(string, Key)>): map<string, Key> {
    if |es| == 0 then map[]
    else FromEntries(es[..|es| - 1])[es[|es| - 1].0 := es[|es| - 1].1]
  }

  /** Entries appended later override earlier ones: `fromEntries` of a
      concatenation is the map union with the right side winning. */
  lemma {:induction false} FromEntriesAppend(a: seq<(string, Key)>, b: seq<(string, Key)>)
    ensures FromEntries(a + b) == FromEntries(a) + FromEntries(b)
  {
    if |b| == 0 {
      assert a + b == a;
    } else {
      var b' := b[..|b| - 1];
      assert (a + b)[..|a + b| - 1] == a + b';
      FromEntriesAppend(a, b');
      UnionPut(FromEntries(a), FromEntries(b'), b[|b| - 1].0, b[|b| - 1].1);
    }
  }

  /** The entries of row `i` come before those of the rows after it. */
  lemma RowEntries(t: seq<(char, Building)>, i: nat)
    requires i < |t|
    ensures FromEntries(RoleEntries(t, i)) ==
      FromEntries(PairRoles(t[i].1.roles, t[i].1.key)) + FromEntries(RoleEntries(t, i + 1))
  {
    FromEntriesAppend(PairRoles(t[i].1.roles, t[i].1.key), RoleEntries(t, i + 1));
  }

  /** `ROLE_TO_BUILDING`. */
  function RoleToBuilding(): map<string, Key> {
    FromEntries(RoleEntries(Table()))
  }

  /** `ROLE_TO_BUILDING` written out. */
  function RoleMap(): map<string, Key> {
    map["idle" := Barn, "complete" := Barn, "error" := Barn,
        "researcher" := Library, "reviewer" := Inspector, "generic" := Forge,
        "worker" := Factory, "orchestrator" := Hall, "writer" := Scriptorium]
  }

  lemma RoleToBuildingIsRoleMap()
    ensures RoleToBuilding() == RoleMap()
  {
    TableRoles();
    FoldRoles(Table());
  }

  /** The roles and keys of `Table()`, row by row. */
  predicate RolesAsListed(t: seq<(char, Building)>) {
    |t| == 9 &&
    t[0].1.roles == ["idle", "complete", "error"] && t[0].1.key == Barn &&
    t[1].1.roles == ["researcher"] && t[1].1.key == Library &&
    t[2].1.roles == ["reviewer"] && t[2].1.key == Inspector &&
    t[3].1.roles == ["generic"] && t[3].1.key == Forge &&
    t[4].1.roles == ["worker"] && t[4].1.key == Factory &&
    t[5].1.roles == ["orchestrator"] && t[5].1.key == Hall &&
    t[6].1.roles == ["writer"] && t[6].1.key == Scriptorium &&
    t[7].1.roles == [] && t[8].1.roles == []
  }

  lemma TableRoles()
    ensures RolesAsListed(Table())
  {
  }

  /** Folding the entries of such a table into a map one at a time, in
      order, yields `ROLE_TO_BUILDING` written out. */
  lemma FoldRoles(t: seq<(char, Building)>)
    requires RolesAsListed(t)
    ensures FromEntries(RoleEntries(t)) == RoleMap()
  {
    var m: map<string, Key> := map[];
    assert FromEntries(RoleEntries(t, 0)) == m + FromEntries(RoleEntries(t, 0));
    BarnRowInto(t, m);
    FoldMiddle(t, map["idle" := Barn, "complete" := Barn, "error" := Barn]);
  }

  lemma FoldMiddle(t: seq<(char, Building)>, m: map<string, Key>)
    requires |t| == 9
    requires t[1].1.roles == ["researcher"] && t[1].1.key == Library
    requires t[2].1.roles == ["reviewer"] && t[2].1.key == Inspector
    requires t[3].1.roles == ["generic"] && t[3].1.key == Forge
    requires t[4].1.roles == ["worker"] && t[4].1.key == Factory
    requires t[5].1.roles == ["orchestrator"] && t[5].1.key == Hall
    requires t[6].1.roles == ["writer"] && t[6].1.key == Scriptorium
    requires t[7].1.roles == [] && t[8].1.roles == []
    ensures m + FromEntries(RoleEntries(t, 1)) ==
      m["researcher" := Library]["reviewer" := Inspector]["generic" := Forge]
       ["worker" := Factory]["orchestrator" := Hall]["writer" := Scriptorium]
  {
    SingleRow(t, 1, "researcher", Library, m);
    SingleRow(t, 2, "reviewer", Inspector, m["researcher" := Library]);
    SingleRow(t, 3, "generic", Forge, m["researcher" := Library]["reviewer" := Inspector]);
    FoldLast(t, m["researcher" := Library]["reviewer" := Inspector]["generic" := Forge]);
  }

  lemma FoldLast(t: seq<(char, Building)>, m: map<string, Key>)
    requires |t| == 9
    requires t[4].1.roles == ["worker"] && t[4].1.key == Factory
    requires t[5].1.roles == ["orchestrator"] && t[5].1.key == Hall
    requires t[6].1.roles == ["writer"] && t[6].1.key == Scriptorium
    requires t[7].1.roles == [] && t[8].1.roles == []
    ensures m + FromEntries(RoleEntries(t, 4)) ==
      m["worker" := Factory]["orchestrator" := Hall]["writer" := Scriptorium]
  {
    SingleRow(t, 4, "worker", Factory, m);
    SingleRow(t, 5, "orchestrator", Hall, m["worker" := Factory]);
    var m' := m["worker" := Factory]["orchestrator" := Hall];
    SingleRow(t, 6, "writer", Scriptorium, m');
    m' := m'["writer" := Scriptorium];
    EmptyRow(t, 7, m');
    EmptyRow(t, 8, m');
    assert RoleEntries(t, 9) == [];
    assert m' + map[] == m';
  }

  lemma UnionAssoc(a: map<string, Key>, b: map<string, Key>, c: map<string, Key>)
    ensures a + (b + c) == (a + b) + c
  {
  }

  /** Folding row `i` into `m`. */
  lemma RowInto(t: seq<(char, Building)>, i: nat, m: map<string, Key>)
    requires i < |t|
    ensures m + FromEntries(RoleEntries(t, i)) ==
      (m + FromEntries(PairRoles(t[i].1.roles, t[i].1.key))) + FromEntries(RoleEntries(t, i + 1))
  {
    RowEntries(t, i);
    UnionAssoc(m, FromEntries(PairRoles(t[i].1.roles, t[i].1.key)), FromEntries(RoleEntries(t, i + 1)));
  }

  lemma UnionPut(m: map<string, Key>, a: map<string, Key>, r: string, k: Key)
    ensures m + a[r := k] == (m + a)[r := k]
  {
  }

  lemma SingleRow(t: seq<(char, Building)>, i: nat, r: string, k: Key, m: map<string, Key>)
    requires i < |t| && t[i].1.roles == [r] && t[i].1.key == k
    ensures m + FromEntries(RoleEntries(t, i)) == m[r := k] + FromEntries(RoleEntries(t, i + 1))
  {
    RowInto(t, i, m);
    var es := PairRoles([r], k);
    var e: map<string, Key> := map[];
    assert es[..0] == [];
    assert FromEntries(es) == e[r := k];
    UnionPut(m, e, r, k);
    assert m + e == m;
  }

  lemma EmptyRow(t: seq<(char, Building)>, i: nat, m: map<string, Key>)
    requires i < |t| && t[i].1.roles == []
    ensures m + FromEntries(RoleEntries(t, i)) == m + FromEntries(RoleEntries(t, i + 1))
  {
    RowInto(t, i, m);
    assert PairRoles(t[i].1.roles, t[i].1.key) == [];
    assert m + map[] == m;
  }

  lemma BarnEntries()
    ensures FromEntries(PairRoles(["idle", "complete", "error"], Barn)) ==
      map["idle" := Barn, "complete" := Barn, "error" := Barn]
  {
    var es := PairRoles(["idle", "complete", "error"], Barn);
    var e: map<string, Key> := map[];
    assert es[..1][..0] == [];
    assert FromEntries(es[..1]) == e["idle" := Barn];
    assert es[..2][..1] == es[..1];
    assert FromEntries(es[..2]) == e["idle" := Barn]["complete" := Barn];
    assert es[..3][..2] == es[..2] && es[..3] == es;
  }

  lemma BarnRowInto(t: seq<(char, Building)>, m: map<string, Key>)
    requires |t| > 1 && t[0].1.roles == ["idle", "complete", "error"] && t[0].1.key == Barn
    ensures m + FromEntries(RoleEntries(t, 0)) ==
      m["idle" := Barn]["complete" := Barn]["error" := Barn] + FromEntries(RoleEntries(t, 1))
  {
    RowInto(t, 0, m);
    BarnEntries();
    UnionBarn(m);
  }

  lemma UnionBarn(m: map<string, Key>)
    ensures m + map["idle" := Barn, "complete" := Barn, "error" := Barn] ==
      m["idle" := Barn]["complete" := Barn]["error" := Barn]
  {
    var e: map<string, Key> := map[];
    UnionPut(m, e["idle" := Barn]["complete" := Barn], "error", Barn);
    UnionPut(m, e["idle" := Barn], "complete", Barn);
    UnionPut(m, e, "idle", Barn);
    assert m + e == m;
  }

  lemma RoleMapFollowsTable(i: int, r: string)
    requires 0 <= i < |Table()| && r in Table()[i].1.roles
    ensures r in RoleMap() && RoleMap()[r] == Table()[i].1.key
  {
    var b := Table()[i].1;
    if i == 0 {
      assert b == BarnBuilding;
      assert r == "idle" || r == "complete" || r == "error";
    } else if i == 1 {
      assert b == LibraryBuilding && r == "researcher";
    } else if i == 2 {
      assert b == InspectorBuilding && r == "reviewer";
    } else if i == 3 {
      assert b == ForgeBuilding && r == "generic";
    } else if i == 4 {
      assert b == FactoryBuilding && r == "worker";
    } else if i == 5 {
      assert b == HallBuilding && r == "orchestrator";
    } else if i == 6 {
      assert b == ScriptoriumBuilding && r == "writer";
    }
  }

  /** `ROLE_TO_BUILDING` sends each role listed by a building to that
      building's key. */
  lemma RoleToBuildingFollowsTable(i: int, r: string)
    requires 0 <= i < |Table()| && r in Table()[i].1.roles
    ensures r in RoleToBuilding() && RoleToBuilding()[r] == Table()[i].1.key
  {
    RoleToBuildingIsRoleMap();
    RoleMapFollowsTable(i, r);
  }

  /** The row of `Table()` that lists role `r` of `RoleMap()`. */
  function RowOf(r: string): (i: int)
    requires r in RoleMap()
    ensures 0 <= i < |Table()| && r in Table()[i].1.roles
  {
    if r == "idle" then assert r == BarnBuilding.roles[0]; 0
    else if r == "complete" then assert r == BarnBuilding.roles[1]; 0
    else if r == "error" then assert r == BarnBuilding.roles[2]; 0
    else if r == "researcher" then assert r == LibraryBuilding.roles[0]; 1
    else if r == "reviewer" then assert r == InspectorBuilding.roles[0]; 2
    else if r == "generic" then assert r == ForgeBuilding.roles[0]; 3
    else if r == "worker" then assert r == FactoryBuilding.roles[0]; 4
    else if r == "orchestrator" then assert r == HallBuilding.roles[0]; 5
    else assert r == ScriptoriumBuilding.roles[0]; 6
  }

  /** Every key of `ROLE_TO_BUILDING` is a role some building lists, and
      the decorative buildings with no roles are never a target. */
  lemma RoleToBuildingOnlyListedRoles(r: string)
    requires r in RoleToBuilding()
    ensures exists i :: 0 <= i < |Table()| && r in Table()[i].1.roles
    ensures RoleToBuilding()[r] != Apothecary && RoleToBuilding()[r] != Market
  {
    RoleToBuildingIsRoleMap();
    RoleMapOnlyListedRoles(r);
  }

  lemma RoleMapOnlyListedRoles(r: string)
    requires r in RoleMap()
    ensures exists i :: 0 <= i < |Table()| && r in Table()[i].1.roles
    ensures RoleMap()[r] != Apothecary && RoleMap()[r] != Market
  {
    var i := RowOf(r);
  }

  /** `inferRole(name)`: the first pattern group, in priority order, that
      occurs in the lower-cased name; `""` stands for an absent name. */
  function InferRole(name: string): (role: string)
    ensures role in Roles
    ensures name == "" ==> role == "generic"
  {
    if name == "" then "generic" else RoleOfLowered(ToLower(name))
  }

  /** The pattern groups of `inferRole`, tried in priority order on a
      name that is already lower-cased. */
  function RoleOfLowered(n: string): (role: string)
    ensures role in Roles
  {
    if Contains(n, "orchestrat") then "orchestrator"
    else if Contains(n, "research") then "researcher"
    else if Contains(n, "worker") || Contains(n, "build") || Contains(n, "implement") then "worker"
    else if Contains(n, "review") || Contains(n, "crossfire") then "reviewer"
    else if Contains(n, "writ") || Contains(n, "spec") || Contains(n, "document") then "writer"
    else "generic"
  }

  /** The pattern groups of `inferRole` as a priority table. */
  function Rules(): seq<(seq<string>, string)> {
    [ (["orchestrat"], "orchestrator"),
      (["research"], "researcher"),
      (["worker", "build", "implement"], "worker"),
      (["review", "crossfire"], "reviewer"),
      (["writ", "spec", "document"], "writer") ]
  }

  predicate AnyOccurs(n: string, pats: seq<string>) {
    |pats| > 0 && (Contains(n, pats[0]) || AnyOccurs(n, pats[1..]))
  }

  /** Reference reading of the table: the role of the first rule one of
      whose patterns occurs, else `"generic"`. */
  function FirstMatch(rules: seq<(seq<string>, string)>, n: string): string {
    if |rules| == 0 then "generic"
    else if AnyOccurs(n, rules[0].0) then rules[0].1
    else FirstMatch(rules[1..], n)
  }

  /** `inferRole` is the first-match reading of the priority table on the
      lower-cased name: an earlier group wins over every later one. */
  lemma InferRoleIsFirstMatch(name: string)
    requires name != ""
    ensures InferRole(name) == FirstMatch(Rules(), ToLower(name))
  {
    var n := ToLower(name);
    var rs := Rules();
    var r4 := [(["writ", "spec", "document"], "writer")];
    var r3 := [(["review", "crossfire"], "reviewer")] + r4;
    var r2 := [(["worker", "build", "implement"], "worker")] + r3;
    var r1 := [(["research"], "researcher")] + r2;
    assert rs == [(["orchestrat"], "orchestrator")] + r1;
    assert rs[1..] == r1 && r1[1..] == r2 && r2[1..] == r3 && r3[1..] == r4 && r4[1..] == [];
    assert FirstMatch(r4, n) == (if AnyOccurs(n, ["writ", "spec", "document"]) then "writer" else "generic");
    assert FirstMatch(r3, n) == (if AnyOccurs(n, ["review", "crossfire"]) then "reviewer" else FirstMatch(r4, n));
    assert FirstMatch(r2, n) == (if AnyOccurs(n, ["worker", "build", "implement"]) then "worker" else FirstMatch(r3, n));
    assert FirstMatch(r1, n) == (if AnyOccurs(n, ["research"]) then "researcher" else FirstMatch(r2, n));
    assert FirstMatch(rs, n) == (if AnyOccurs(n, ["orchestrat"]) then "orchestrator" else FirstMatch(r1, n));
    AnyOne(n, "orchestrat");
    AnyOne(n, "research");
    AnyThree(n, "worker", "build", "implement");
    AnyTwo(n, "review", "crossfire");
    AnyThree(n, "writ", "spec", "document");
  }

  lemma AnyOne(n: string, a: string)
    ensures AnyOccurs(n, [a]) == Contains(n, a)
  {
    assert [a][1..] == [];
  }

  lemma AnyTwo(n: string, a: string, b: string)
    ensures AnyOccurs(n, [a, b]) == (Contains(n, a) || Contains(n, b))
  {
    assert [a, b][1..] == [b];
    AnyOne(n, b);
  }

  lemma AnyThree(n: string, a: string, b: string, c: string)
    ensures AnyOccurs(n, [a, b, c]) == (Contains(n, a) || Contains(n, b) || Contains(n, c))
  {
    assert [a, b, c][1..] == [b, c];
    AnyTwo(n, b, c);
  }

  /** Matching ignores case: the name is lower-cased before any test. */
  lemma InferRoleIgnoresCase(name: string)
    ensures InferRole(ToLower(name)) == InferRole(name)
  {
    ToLowerIdempotent(name);
    if name != "" {
      assert ToLower(name) != "";
    }
  }

  /** Every role `inferRole` can produce has a building, `"generic"` the forge. */
  lemma EveryInferredRoleHasBuilding(name: string)
    ensures InferRole(name) in RoleToBuilding()
    ensures InferRole(name) == "generic" ==> RoleToBuilding()[InferRole(name)] == Forge
  {
    RoleToBuildingIsRoleMap();
    RolesInRoleMap(InferRole(name));
  }

  lemma RolesInRoleMap(r: string)
    requires r in Roles
    ensures r in RoleMap() && (r == "generic" ==> RoleMap()[r] == Forge)
  {
  }
}
