/** The normal form of the servers configuration (`parseServersConfigFile`):
    defaults are written in place through nodes of the tree, over nothing the
    user has set. */
module ServersConfig {
  import opened Wrappers
  import opened ConfigTree
  import Strings

  // ---- defaults -------------------------------------------------------------------

  type Defaults = seq<(string, Value)>

  function AddMissing(g: Tree, key: string, x: Value): Tree {
    if key in g then g else g[key := x]
  }

  /** The defaults set one after the other. */
  function Fill(ds: Defaults, g: Tree): Tree {
    if ds == [] then g else Fill(ds[1..], AddMissing(g, ds[0].0, ds[0].1))
  }

  predicate HasAll(ds: Defaults, g: Tree) {
    forall i :: 0 <= i < |ds| ==> ds[i].0 in g
  }

  /** Filling keeps what is there and adds what is missing, nothing else. */
  lemma {:induction false} FillKeeps(ds: Defaults, g: Tree)
    ensures g.Keys <= Fill(ds, g).Keys && (forall k :: k in g ==> Fill(ds, g)[k] == g[k]) && HasAll(ds, Fill(ds, g))
    ensures forall k :: k in Fill(ds, g) ==> k in g || exists i :: 0 <= i < |ds| && ds[i] == (k, Fill(ds, g)[k])
  {
    if ds != [] {
      var next := AddMissing(g, ds[0].0, ds[0].1);
      FillKeeps(ds[1..], next);
      forall k | k in Fill(ds, g) && k !in g ensures exists i :: 0 <= i < |ds| && ds[i] == (k, Fill(ds, g)[k]) {
        if k in next {
          assert ds[0] == (k, Fill(ds, g)[k]);
        } else {
          var i :| 0 <= i < |ds[1..]| && ds[1..][i] == (k, Fill(ds, g)[k]);
          assert ds[i + 1] == (k, Fill(ds, g)[k]);
        }
      }
    }
  }

  lemma {:induction false} FillFull(ds: Defaults, g: Tree)
    requires HasAll(ds, g)
    ensures Fill(ds, g) == g
  {
    if ds != [] {
      assert ds[0].0 in g;
      assert HasAll(ds[1..], g);
      FillFull(ds[1..], g);
    }
  }

  const YES: Value := Scalar(Bool(true))

  function Text(s: string): Value {
    Scalar(Str(s))
  }

  function Number(i: int): Value {
    Scalar(Int(i))
  }

  const SECTIONS: Defaults :=
    [("DbConfig", EMPTY), ("LogsDbConfig", EMPTY), ("WebDbConfig", EMPTY), ("LoginServer", EMPTY),
      ("CharMapServers", EMPTY)]

  const DATABASE: Defaults :=
    [("Hostname", Text("localhost")), ("Username", Text("ragnarok")), ("Password", Text("ragnarok")),
      ("Persistent", YES)]

  const EXP_RATES: Value := Arr(map["Base" := Number(100), "Job" := Number(100), "Mvp" := Number(100)])

  const DROP_RATES: Value := Arr(map[
    "DropRateCap" := Number(9000),
    "Common" := Number(100), "CommonBoss" := Number(100), "CommonMVP" := Number(100), "CommonMin" := Number(1),
      "CommonMax" := Number(10000),
    "Heal" := Number(100), "HealBoss" := Number(100), "HealMVP" := Number(100), "HealMin" := Number(1),
      "HealMax" := Number(10000),
    "Useable" := Number(100), "UseableBoss" := Number(100), "UseableMVP" := Number(100), "UseableMin" := Number(1),
      "UseableMax" := Number(10000),
    "Equip" := Number(100), "EquipBoss" := Number(100), "EquipMVP" := Number(100), "EquipMin" := Number(1),
      "EquipMax" := Number(10000),
    "Card" := Number(100), "CardBoss" := Number(100), "CardMVP" := Number(100), "CardMin" := Number(1),
      "CardMax" := Number(10000),
    "MvpItem" := Number(100), "MvpItemMin" := Number(1), "MvpItemMax" := Number(10000), "MvpItemMode" := Number(0)])

  function Login(database: Value): Defaults {
    [("Database", database), ("UseMD5", YES)]
  }

  function Server(database: Value): Defaults {
    [("ExpRates", EXP_RATES), ("DropRates", DROP_RATES), ("Renewal", YES), ("CharServer", EMPTY),
      ("MapServer", EMPTY), ("Database", database)]
  }

  // ---- the normal form --------------------------------------------------------------

  function Key(g: Tree, key: string): Value {
    if key in g then g[key] else NULL
  }

  function FillValue(ds: Defaults, v: Value): Value {
    if v.Arr? then Arr(Fill(ds, v.entries)) else v
  }

  function FillChildren(ds: Defaults, v: Value): Value {
    if v.Arr? then Arr(map k | k in v.entries :: FillValue(ds, v.entries[k])) else v
  }

  /** The sections of a top-level group and its three databases. */
  function WithDatabases(g: Tree): Tree {
    var g0 := Fill(SECTIONS, g);
    HasSections(g);
    var g1 := g0["DbConfig" := FillValue(DATABASE, g0["DbConfig"])];
    var g2 := g1["LogsDbConfig" := FillValue(DATABASE, g1["LogsDbConfig"])];
    g2["WebDbConfig" := FillValue(DATABASE, g2["WebDbConfig"])]
  }

  /** The login server and the char/map servers, whose database names default to
      the group's. */
  function NormalGroup(g: Tree): Tree {
    HasSections(g);
    WithServers(WithDatabases(g))
  }

  function WithServers(g: Tree): Tree
    requires "LoginServer" in g && "CharMapServers" in g
  {
    var login := g["LoginServer" := FillValue(Login(DatabaseOf(g)), g["LoginServer"])];
    login["CharMapServers" := FillChildren(Server(DatabaseOf(g)), login["CharMapServers"])]
  }

  function DatabaseOf(g: Tree): Value {
    var db := Key(g, "DbConfig");
    if db.Arr? then Key(db.entries, "Database") else NULL
  }

  lemma HasSections(g: Tree)
    ensures var g0 := Fill(SECTIONS, g);
      "DbConfig" in g0 && "LogsDbConfig" in g0 && "WebDbConfig" in g0 && "LoginServer" in g0 && "CharMapServers" in g0
  {
    FillKeeps(SECTIONS, g);
    var g0 := Fill(SECTIONS, g);
    assert SECTIONS[0].0 in g0 && SECTIONS[1].0 in g0 && SECTIONS[2].0 in g0 && SECTIONS[3].0 in g0 &&
      SECTIONS[4].0 in g0;
  }

  function NormalTop(v: Value): Value {
    if v.Arr? then Arr(NormalGroup(v.entries)) else v
  }

  function Normal(t: Tree): Tree {
    map k | k in t :: NormalTop(t[k])
  }

  // ---- nothing the user has set is changed -----------------------------------------------

  lemma FillExtends(ds: Defaults, v: Value)
    ensures Extends(v, FillValue(ds, v))
  {
    if v.Arr? {
      FillKeeps(ds, v.entries);
      forall k | k in v.entries ensures Extends(v.entries[k], FillValue(ds, v).entries[k]) {
        ExtendsRefl(v.entries[k]);
      }
    }
  }

  lemma UpdateExtends(g: Tree, h: Tree, k: string, x: Value)
    requires Extends(Arr(g), Arr(h)) && k in h && Extends(h[k], x)
    ensures Extends(Arr(g), Arr(h[k := x]))
  {
    if k in g { ExtendsTrans(g[k], h[k], x); }
  }

  lemma ChildrenExtend(ds: Defaults, v: Value)
    ensures Extends(v, FillChildren(ds, v))
  {
    if v.Arr? {
      forall k | k in v.entries ensures Extends(v.entries[k], FillChildren(ds, v).entries[k]) {
        FillExtends(ds, v.entries[k]);
      }
    }
  }

  lemma GroupExtends(g: Tree)
    ensures Extends(Arr(g), Arr(NormalGroup(g)))
  {
    var g0 := Fill(SECTIONS, g);
    HasSections(g);
    FillExtends(SECTIONS, Arr(g));
    FillExtends(DATABASE, g0["DbConfig"]);
    UpdateExtends(g, g0, "DbConfig", FillValue(DATABASE, g0["DbConfig"]));
    var g1 := g0["DbConfig" := FillValue(DATABASE, g0["DbConfig"])];
    FillExtends(DATABASE, g1["LogsDbConfig"]);
    UpdateExtends(g, g1, "LogsDbConfig", FillValue(DATABASE, g1["LogsDbConfig"]));
    var g2 := g1["LogsDbConfig" := FillValue(DATABASE, g1["LogsDbConfig"])];
    FillExtends(DATABASE, g2["WebDbConfig"]);
    UpdateExtends(g, g2, "WebDbConfig", FillValue(DATABASE, g2["WebDbConfig"]));
    var g3 := g2["WebDbConfig" := FillValue(DATABASE, g2["WebDbConfig"])];
    FillExtends(Login(DatabaseOf(g3)), g3["LoginServer"]);
    UpdateExtends(g, g3, "LoginServer", FillValue(Login(DatabaseOf(g3)), g3["LoginServer"]));
    var g4 := g3["LoginServer" := FillValue(Login(DatabaseOf(g3)), g3["LoginServer"])];
    ChildrenExtend(Server(DatabaseOf(g3)), g4["CharMapServers"]);
    UpdateExtends(g, g4, "CharMapServers", FillChildren(Server(DatabaseOf(g3)), g4["CharMapServers"]));
  }

  /** No value of the user is changed and none is lost, at any depth. */
  lemma NormalKeepsUserValues(t: Tree)
    ensures Extends(Arr(t), Arr(Normal(t)))
  {
    forall k | k in t ensures Extends(t[k], Normal(t)[k]) {
      if t[k].Arr? { GroupExtends(t[k].entries); }
    }
  }

  // ---- what is accepted -----------------------------------------------------------------

  /** PHP's truth; an array is read as an object, which is true. */
  predicate Truthy(v: Value) {
    v.Arr? || !(v.atom == Null || v.atom == Bool(false) || v.atom == Int(0) || v.atom == Str("") || v.atom == Str("0"))
  }

  predicate HasEndpoint(v: Value) {
    v.Arr? && Truthy(Key(v.entries, "Address")) && Truthy(Key(v.entries, "Port"))
  }

  /** A char/map server, once filled. */
  predicate ServerOk(s: Tree) {
    Truthy(Key(s, "ServerName")) && HasEndpoint(Key(s, "CharServer")) && HasEndpoint(Key(s, "MapServer"))
  }

  function ServerName(v: Value): Value {
    if v.Arr? then Key(v.entries, "ServerName") else NULL
  }

  /** `==` of PHP, by which names are looked up. */
  ghost predicate IsLooseEquality(same: (Value, Value) -> bool) {
    (forall a :: same(a, a)) && (forall a, b :: same(a, b) == same(b, a))
  }

  /** The arrays at these keys have pairwise different names. */
  predicate NamesDiffer(t: Tree, keys: set<string>, same: (Value, Value) -> bool)
    requires keys <= t.Keys
  {
    forall j, k :: j in keys && k in keys && j != k ==> !same(ServerName(t[j]), ServerName(t[k]))
  }

  predicate ServersOk(servers: Tree, keys: set<string>, same: (Value, Value) -> bool)
    requires keys <= ArrayKeys(servers)
  {
    (forall k :: k in keys ==> ServerOk(servers[k].entries)) && NamesDiffer(servers, keys, same)
  }

  /** A group, once filled: its name is a key later on, so not an array; its
      sections are arrays, and every server in it is in order. */
  predicate GroupOk(g: Tree, same: (Value, Value) -> bool) {
    Truthy(Key(g, "ServerName")) && Key(g, "ServerName").Scalar? && SectionsOk(g, same)
  }

  predicate SectionsOk(g: Tree, same: (Value, Value) -> bool) {
    && Key(g, "DbConfig").Arr? && Key(g, "LogsDbConfig").Arr? && Key(g, "WebDbConfig").Arr?
    && ServersPartOk(g, same)
  }

  predicate ServersPartOk(g: Tree, same: (Value, Value) -> bool) {
    && HasEndpoint(Key(g, "LoginServer"))
    && Key(g, "CharMapServers").Arr?
    && var servers := Key(g, "CharMapServers").entries;
       servers != map[] && ServersOk(servers, ArrayKeys(servers), same)
  }

  predicate GroupsOk(t: Tree, keys: set<string>, same: (Value, Value) -> bool)
    requires keys <= ArrayKeys(t)
  {
    (forall k :: k in keys ==> GroupOk(t[k].entries, same)) && NamesDiffer(t, keys, same)
  }

  predicate IsNormal(t: Tree, imported: bool, same: (Value, Value) -> bool) {
    (imported || t != map[]) && GroupsOk(t, ArrayKeys(t), same)
  }

  // ---- the normal form is stable ----------------------------------------------------------

  lemma FillValueTwice(ds: Defaults, v: Value)
    ensures FillValue(ds, FillValue(ds, v)) == FillValue(ds, v)
  {
    if v.Arr? {
      FillKeeps(ds, v.entries);
      FillFull(ds, Fill(ds, v.entries));
    }
  }

  lemma FillChildrenTwice(ds: Defaults, v: Value)
    ensures FillChildren(ds, FillChildren(ds, v)) == FillChildren(ds, v)
  {
    if v.Arr? {
      var once := FillChildren(ds, v).entries;
      forall k | k in once ensures FillValue(ds, once[k]) == once[k] { FillValueTwice(ds, v.entries[k]); }
      assert FillChildren(ds, Arr(once)).entries == once;
    }
  }

  /** The sections of a group in normal form. */
  lemma SectionsOfNormal(g: Tree)
    ensures var g0 := Fill(SECTIONS, g); var n := NormalGroup(g);
      && n.Keys == g0.Keys && "DbConfig" in n && "LogsDbConfig" in n && "WebDbConfig" in n && "LoginServer" in n &&
        "CharMapServers" in n
      && n["DbConfig"] == FillValue(DATABASE, g0["DbConfig"]) &&
        n["LogsDbConfig"] == FillValue(DATABASE, g0["LogsDbConfig"])
      && n["WebDbConfig"] == FillValue(DATABASE, g0["WebDbConfig"])
      && n["LoginServer"] == FillValue(Login(DatabaseOf(n)), g0["LoginServer"])
      && n["CharMapServers"] == FillChildren(Server(DatabaseOf(n)), g0["CharMapServers"])
      && forall k :: k in n && k !in {"DbConfig", "LogsDbConfig", "WebDbConfig", "LoginServer", "CharMapServers"} ==>
        n[k] == g0[k]
  {
    HasSections(g);
  }

  /** A group whose sections stay as they are when they are filled again. */
  lemma NormalOfFull(n: Tree)
    requires HasAll(SECTIONS, n)
    requires FillValue(DATABASE, Key(n, "DbConfig")) == Key(n, "DbConfig")
    requires FillValue(DATABASE, Key(n, "LogsDbConfig")) == Key(n, "LogsDbConfig")
    requires FillValue(DATABASE, Key(n, "WebDbConfig")) == Key(n, "WebDbConfig")
    requires FillValue(Login(DatabaseOf(n)), Key(n, "LoginServer")) == Key(n, "LoginServer")
    requires FillChildren(Server(DatabaseOf(n)), Key(n, "CharMapServers")) == Key(n, "CharMapServers")
    ensures NormalGroup(n) == n
  {
    FillFull(SECTIONS, n);
    HasSections(n);
    SameValue(n, "DbConfig");
    SameValue(n, "LogsDbConfig");
    SameValue(n, "WebDbConfig");
    SameValue(n, "LoginServer");
    SameValue(n, "CharMapServers");
  }

  lemma SameValue(g: Tree, key: string)
    requires key in g
    ensures g[key := Key(g, key)] == g
  {
  }

  lemma GroupTwice(g: Tree)
    ensures NormalGroup(NormalGroup(g)) == NormalGroup(g)
  {
    var g0, n := Fill(SECTIONS, g), NormalGroup(g);
    SectionsOfNormal(g);
    HasSections(g);
    NormalHasSections(g);
    FillValueTwice(DATABASE, g0["DbConfig"]);
    FillValueTwice(DATABASE, g0["LogsDbConfig"]);
    FillValueTwice(DATABASE, g0["WebDbConfig"]);
    FillValueTwice(Login(DatabaseOf(n)), g0["LoginServer"]);
    FillChildrenTwice(Server(DatabaseOf(n)), g0["CharMapServers"]);
    NormalOfFull(n);
  }

  /** Normalising again changes nothing. */
  lemma NormalIsStable(t: Tree)
    ensures Normal(Normal(t)) == Normal(t)
  {
    forall k | k in t ensures Normal(Normal(t))[k] == Normal(t)[k] {
      if t[k].Arr? { GroupTwice(t[k].entries); }
    }
  }

  // ---- every default is present -------------------------------------------------------------

  predicate IsFilled(ds: Defaults, v: Value) {
    v.Arr? && HasAll(ds, v.entries)
  }

  predicate GroupIsComplete(g: Tree) {
    && HasAll(SECTIONS, g)
    && IsFilled(DATABASE, Key(g, "DbConfig")) && IsFilled(DATABASE, Key(g, "LogsDbConfig")) &&
      IsFilled(DATABASE, Key(g, "WebDbConfig"))
    && IsFilled(Login(NULL), Key(g, "LoginServer"))
    && Key(g, "CharMapServers").Arr?
    && forall k :: k in ArrayKeys(Key(g, "CharMapServers").entries) ==>
      IsFilled(Server(NULL), Key(g, "CharMapServers").entries[k])
  }

  lemma FilledValue(ds: Defaults, v: Value)
    requires v.Arr?
    ensures IsFilled(ds, FillValue(ds, v))
  {
    FillKeeps(ds, v.entries);
  }

  lemma SameKeys(ds: Defaults, es: Defaults, v: Value)
    requires IsFilled(ds, v) && |ds| == |es| && forall i :: 0 <= i < |ds| ==> ds[i].0 == es[i].0
    ensures IsFilled(es, v)
  {
    forall i | 0 <= i < |es| ensures es[i].0 in v.entries { assert ds[i].0 in v.entries; }
  }

  lemma NormalHasSections(g: Tree)
    ensures HasAll(SECTIONS, NormalGroup(g))
  {
    SectionsOfNormal(g);
    FillKeeps(SECTIONS, g);
  }

  lemma DatabasesAreComplete(g: Tree)
    ensures var n := NormalGroup(g);
      && (Key(n, "DbConfig").Arr? ==> IsFilled(DATABASE, Key(n, "DbConfig")))
      && (Key(n, "LogsDbConfig").Arr? ==> IsFilled(DATABASE, Key(n, "LogsDbConfig")))
      && (Key(n, "WebDbConfig").Arr? ==> IsFilled(DATABASE, Key(n, "WebDbConfig")))
  {
    SectionsOfNormal(g);
    HasSections(g);
    var g0 := Fill(SECTIONS, g);
    if g0["DbConfig"].Arr? { FilledValue(DATABASE, g0["DbConfig"]); }
    if g0["LogsDbConfig"].Arr? { FilledValue(DATABASE, g0["LogsDbConfig"]); }
    if g0["WebDbConfig"].Arr? { FilledValue(DATABASE, g0["WebDbConfig"]); }
  }

  lemma LoginIsComplete(g: Tree)
    ensures var login := Key(NormalGroup(g), "LoginServer"); login.Arr? ==> IsFilled(Login(NULL), login)
  {
    SectionsOfNormal(g);
    HasSections(g);
    var before, ds := Fill(SECTIONS, g)["LoginServer"], Login(DatabaseOf(NormalGroup(g)));
    if before.Arr? {
      FilledValue(ds, before);
      SameKeys(ds, Login(NULL), FillValue(ds, before));
    }
  }

  lemma ServersAreComplete(g: Tree, k: string)
    requires Key(NormalGroup(g), "CharMapServers").Arr? && k in ArrayKeys(Key(NormalGroup(g), "CharMapServers").entries)
    ensures IsFilled(Server(NULL), Key(NormalGroup(g), "CharMapServers").entries[k])
  {
    SectionsOfNormal(g);
    HasSections(g);
    var before, ds := Fill(SECTIONS, g)["CharMapServers"].entries, Server(DatabaseOf(NormalGroup(g)));
    FilledValue(ds, before[k]);
    SameKeys(ds, Server(NULL), FillValue(ds, before[k]));
  }

  /** A group that is accepted has every default. */
  lemma AcceptedIsComplete(g: Tree, same: (Value, Value) -> bool)
    requires GroupOk(NormalGroup(g), same)
    ensures GroupIsComplete(NormalGroup(g))
  {
    NormalHasSections(g);
    DatabasesAreComplete(g);
    LoginIsComplete(g);
    var servers := Key(NormalGroup(g), "CharMapServers");
    forall k | k in ArrayKeys(servers.entries) ensures IsFilled(Server(NULL), servers.entries[k]) {
      ServersAreComplete(g, k);
    }
  }

  /** In an accepted configuration no two groups, and no two servers of a group,
      have the same name. */
  lemma NamesAreDistinct(t: Tree, imported: bool, same: (Value, Value) -> bool)
    requires IsLooseEquality(same) && IsNormal(t, imported, same)
    ensures forall j, k :: j in ArrayKeys(t) && k in ArrayKeys(t) && j != k ==> ServerName(t[j]) != ServerName(t[k])
    ensures forall g :: g in ArrayKeys(t) ==>
      var servers := Key(t[g].entries, "CharMapServers").entries;
      forall j, k :: j in ArrayKeys(servers) && k in ArrayKeys(servers) && j != k ==>
        ServerName(servers[j]) != ServerName(servers[k])
  {
    forall g | g in ArrayKeys(t)
      ensures var servers := Key(t[g].entries, "CharMapServers").entries;
        forall j, k :: j in ArrayKeys(servers) && k in ArrayKeys(servers) && j != k ==>
          ServerName(servers[j]) != ServerName(servers[k])
    {
      assert GroupOk(t[g].entries, same);
    }
  }

  // ---- what is accepted and filled, key by key -------------------------------------------------

  /** The value at a path is there and is true. */
  predicate IsGiven(g: Tree, path: seq<string>) {
    var x := At(Arr(g), path);
    x.Some? && (x.value.Arr? || x.value.atom !in {Null, Bool(false), Int(0), Str(""), Str("0")})
  }

  predicate IsArray(g: Tree, key: string) {
    key in g && g[key].Arr?
  }

  lemma AtOne(g: Tree, key: string)
    ensures Found(At(Arr(g), [key])) == Key(g, key) && (At(Arr(g), [key]).Some? <==> key in g)
    ensures IsGiven(g, [key]) <==> Truthy(Key(g, key))
  {
    assert [key][1..] == [];
    if key in g { assert At(g[key], []) == Some(g[key]); }
  }

  lemma AtTwo(g: Tree, section: string, key: string)
    ensures Key(g, section).Arr? ==> At(Arr(g), [section, key]) == At(Key(g, section), [key])
    ensures IsGiven(g, [section, key]) <==> Key(g, section).Arr? && Truthy(Key(Key(g, section).entries, key))
  {
    var path := [section, key];
    assert path[0] == section && path[1..] == [key];
    if section in g {
      assert At(Arr(g), path) == At(g[section], path[1..]);
      if g[section].Arr? { AtOne(g[section].entries, key); }
    }
  }

  /** A server is in order when it has a name, and its char server and its map
      server have an address and a port. */
  lemma WhichServersAreOk(s: Tree)
    ensures ServerOk(s) <==>
      IsGiven(s, ["ServerName"])
      && IsGiven(s, ["CharServer", "Address"]) && IsGiven(s, ["CharServer", "Port"])
      && IsGiven(s, ["MapServer", "Address"]) && IsGiven(s, ["MapServer", "Port"])
  {
    AtOne(s, "ServerName");
    AtTwo(s, "CharServer", "Address");
    AtTwo(s, "CharServer", "Port");
    AtTwo(s, "MapServer", "Address");
    AtTwo(s, "MapServer", "Port");
  }

  /** A group is in order when it has a name, three database sections, an
      address and a port of a login server, and at least one char/map server; its
      servers are in order and have different names. */
  lemma WhichGroupsAreOk(g: Tree, same: (Value, Value) -> bool)
    ensures GroupOk(g, same) <==>
      IsGiven(g, ["ServerName"]) && !IsArray(g, "ServerName")
      && IsArray(g, "DbConfig") && IsArray(g, "LogsDbConfig") && IsArray(g, "WebDbConfig")
      && IsGiven(g, ["LoginServer", "Address"]) && IsGiven(g, ["LoginServer", "Port"])
      && IsArray(g, "CharMapServers") && g["CharMapServers"].entries != map[]
      && var servers := g["CharMapServers"].entries;
         (forall k :: IsArray(servers, k) ==> ServerOk(servers[k].entries))
         && (forall j, k :: IsArray(servers, j) && IsArray(servers, k) && j != k ==>
               !same(Key(servers[j].entries, "ServerName"), Key(servers[k].entries, "ServerName")))
  {
    AtOne(g, "ServerName");
    AtTwo(g, "LoginServer", "Address");
    AtTwo(g, "LoginServer", "Port");
    if IsArray(g, "CharMapServers") { WhichServersPass(g["CharMapServers"].entries, same); }
  }

  lemma WhichServersPass(servers: Tree, same: (Value, Value) -> bool)
    ensures ServersOk(servers, ArrayKeys(servers), same) <==>
      (forall k :: IsArray(servers, k) ==> ServerOk(servers[k].entries))
      && (forall j, k :: IsArray(servers, j) && IsArray(servers, k) && j != k ==>
            !same(Key(servers[j].entries, "ServerName"), Key(servers[k].entries, "ServerName")))
  {
    assert forall k :: k in ArrayKeys(servers) <==> IsArray(servers, k);
    assert forall k :: IsArray(servers, k) ==> ServerName(servers[k]) == Key(servers[k].entries, "ServerName");
  }

  /** The file is accepted when its groups are in order and have different names;
      only an import may have none. */
  lemma WhichFilesAreAccepted(t: Tree, imported: bool, same: (Value, Value) -> bool)
    ensures IsNormal(t, imported, same) <==>
      (imported || t != map[])
      && (forall k :: IsArray(t, k) ==> GroupOk(t[k].entries, same))
      && (forall j, k :: IsArray(t, j) && IsArray(t, k) && j != k ==>
            !same(Key(t[j].entries, "ServerName"), Key(t[k].entries, "ServerName")))
  {
    assert forall k :: k in ArrayKeys(t) <==> IsArray(t, k);
    assert forall k :: IsArray(t, k) ==> ServerName(t[k]) == Key(t[k].entries, "ServerName");
  }

  /** The value that a section has after filling: the user's, or the default. */
  lemma {:induction false} FillPuts(ds: Defaults, g: Tree, i: nat)
    requires i < |ds| && forall j :: 0 <= j < i ==> ds[j].0 != ds[i].0
    ensures Key(Fill(ds, g), ds[i].0) == if ds[i].0 in g then g[ds[i].0] else ds[i].1
  {
    var next := AddMissing(g, ds[0].0, ds[0].1);
    if i == 0 {
      FillKeeps(ds[1..], next);
    } else {
      FillPuts(ds[1..], next, i - 1);
    }
  }

  /** The settings of a database that the user has not made. */
  lemma DatabaseDefaults(v: Value, key: string, x: Atom)
    requires v.Arr? && (key, x) in
      [("Hostname", Str("localhost")), ("Username", Str("ragnarok")), ("Password", Str("ragnarok")),
        ("Persistent", Bool(true))]
    ensures Found(At(FillValue(DATABASE, v), [key])) == if key in v.entries then v.entries[key] else Scalar(x)
  {
    var i := if key == "Hostname" then 0 else if key == "Username" then 1 else if key == "Password" then 2 else 3;
    assert DATABASE[i] == (key, Scalar(x));
    FillPuts(DATABASE, v.entries, i);
    AtOne(Fill(DATABASE, v.entries), key);
  }

  /** The database name of the group, and MD5 passwords, for a login server. */
  lemma LoginDefaults(v: Value, database: Value)
    requires v.Arr?
    ensures var w := FillValue(Login(database), v);
      && Found(At(w, ["Database"])) == (if "Database" in v.entries then v.entries["Database"] else database)
      && Found(At(w, ["UseMD5"])) == if "UseMD5" in v.entries then v.entries["UseMD5"] else Scalar(Bool(true))
  {
    FillPuts(Login(database), v.entries, 0);
    FillPuts(Login(database), v.entries, 1);
    AtOne(Fill(Login(database), v.entries), "Database");
    AtOne(Fill(Login(database), v.entries), "UseMD5");
  }

  /** The rates, the renewal mode and the database name of the group for a
      char/map server. */
  lemma ServerDefaults(v: Value, database: Value)
    requires v.Arr?
    ensures var w := FillValue(Server(database), v);
      && Found(At(w, ["Database"])) == (if "Database" in v.entries then v.entries["Database"] else database)
      && Found(At(w, ["Renewal"])) == (if "Renewal" in v.entries then v.entries["Renewal"] else Scalar(Bool(true)))
      && Found(At(w, ["ExpRates"])) == (if "ExpRates" in v.entries then v.entries["ExpRates"] else EXP_RATES)
      && Found(At(w, ["DropRates"])) == if "DropRates" in v.entries then v.entries["DropRates"] else DROP_RATES
  {
    var ds := Server(database);
    FillPuts(ds, v.entries, 0);
    FillPuts(ds, v.entries, 1);
    FillPuts(ds, v.entries, 2);
    FillPuts(ds, v.entries, 5);
    AtOne(Fill(ds, v.entries), "ExpRates");
    AtOne(Fill(ds, v.entries), "DropRates");
    AtOne(Fill(ds, v.entries), "Renewal");
    AtOne(Fill(ds, v.entries), "Database");
  }

  /** A login server or a char/map server without a database name uses that of the
      group's database. */
  lemma DatabaseIsInherited(g: Tree)
    requires IsArray(NormalGroup(g), "DbConfig")
    ensures var n := NormalGroup(g); var database := Found(At(Arr(n), ["DbConfig", "Database"]));
      && (IsArray(n, "LoginServer") && !At(Arr(g), ["LoginServer", "Database"]).Some? ==>
            Found(At(Arr(n), ["LoginServer", "Database"])) == database)
      && (IsArray(n, "CharMapServers") ==> forall k :: IsArray(n["CharMapServers"].entries, k) ==>
            At(Arr(g), ["CharMapServers", k]).Some? && At(Arr(g), ["CharMapServers", k]).value.Arr? &&
            ("Database" !in At(Arr(g), ["CharMapServers", k]).value.entries ==>
              Found(At(n["CharMapServers"].entries[k], ["Database"])) == database))
  {
    var n := NormalGroup(g);
    SectionsOfNormal(g);
    AtTwo(n, "DbConfig", "Database");
    AtOne(n["DbConfig"].entries, "Database");
    if IsArray(n, "LoginServer") { LoginInherits(g); }
    if IsArray(n, "CharMapServers") {
      forall k | IsArray(n["CharMapServers"].entries, k)
        ensures At(Arr(g), ["CharMapServers", k]).Some? && At(Arr(g), ["CharMapServers", k]).value.Arr?
        ensures "Database" !in At(Arr(g), ["CharMapServers", k]).value.entries ==>
          Found(At(n["CharMapServers"].entries[k], ["Database"])) == DatabaseOf(n)
      {
        ServerInherits(g, k);
      }
    }
  }

  lemma LoginInherits(g: Tree)
    requires IsArray(NormalGroup(g), "LoginServer")
    ensures !At(Arr(g), ["LoginServer", "Database"]).Some? ==>
      Found(At(Arr(NormalGroup(g)), ["LoginServer", "Database"])) == DatabaseOf(NormalGroup(g))
  {
    var n := NormalGroup(g);
    SectionsOfNormal(g);
    HasSections(g);
    SectionBefore(g, 3, "LoginServer");
    var before := Fill(SECTIONS, g)["LoginServer"];
    LoginDefaults(before, DatabaseOf(n));
    AtTwo(n, "LoginServer", "Database");
    AtTwo(g, "LoginServer", "Database");
    AtOne(before.entries, "Database");
  }

  lemma ServerInherits(g: Tree, k: string)
    requires IsArray(NormalGroup(g), "CharMapServers") && IsArray(NormalGroup(g)["CharMapServers"].entries, k)
    ensures At(Arr(g), ["CharMapServers", k]).Some? && At(Arr(g), ["CharMapServers", k]).value.Arr?
    ensures "Database" !in At(Arr(g), ["CharMapServers", k]).value.entries ==>
      Found(At(NormalGroup(g)["CharMapServers"].entries[k], ["Database"])) == DatabaseOf(NormalGroup(g))
  {
    SectionsOfNormal(g);
    HasSections(g);
    SectionBefore(g, 4, "CharMapServers");
    var before := Fill(SECTIONS, g)["CharMapServers"];
    AtTwo(g, "CharMapServers", k);
    AtOne(before.entries, k);
    ServerDefaults(before.entries[k], DatabaseOf(NormalGroup(g)));
  }

  /** A section is the user's, or empty. */
  lemma SectionBefore(g: Tree, i: nat, section: string)
    requires i < |SECTIONS| && SECTIONS[i].0 == section && forall j :: 0 <= j < i ==> SECTIONS[j].0 != section
    ensures Key(Fill(SECTIONS, g), section) == if section in g then g[section] else EMPTY
  {
    FillPuts(SECTIONS, g, i);
  }

  // ---- the parser ------------------------------------------------------------------------------

  const KEEP: Options := Options(false, true)

  /** A key of one component that is looked up. */
  predicate IsSingle(key: string) {
    '.' !in key && !IsEmptyKey(key)
  }

  predicate AreSingle(ds: Defaults) {
    forall i :: 0 <= i < |ds| ==> IsSingle(ds[i].0)
  }

  lemma SingleKey(key: string)
    requires IsSingle(key)
    ensures Strings.Explode(".", key) == [key]
  {
    Strings.ExplodeAbsent(".", key);
  }

  lemma DefaultsAreSingle(database: Value)
    ensures AreSingle(SECTIONS) && AreSingle(DATABASE) && AreSingle(Login(database)) && AreSingle(Server(database))
  {
  }

  lemma ReadKey(v: Value, key: string)
    requires v.Arr? && IsSingle(key)
    ensures Get(v, key) == Key(v.entries, key)
  {
    SingleKey(key);
    assert [key][1..] == [];
    if key in v.entries { assert At(v.entries[key], []) == Some(v.entries[key]); }
  }

  lemma SetMissing(v: Value, key: string, x: Value)
    requires v.Arr?
    ensures Put(v, [key], x, KEEP).0 == Arr(AddMissing(v.entries, key, x))
  {
  }

  /** A write at a node below is a change of one key of the node above. */
  lemma ChildWritten(v: Value, p: seq<string>, k: string, x: Value)
    requires At(v, p).Some? && At(v, p).value.Arr? && k in At(v, p).value.entries
    ensures var above := Arr(At(v, p).value.entries[k := x]);
      At(v, p + [k]).Some? && Replace(v, p + [k], x) == Replace(v, p, above) &&
        At(Replace(v, p, above), p) == Some(above)
  {
    assert [k][1..] == [];
    AtAppend(v, p, [k]);
    ReplaceAppend(v, p, [k], x);
    ReplaceTwice(v, p, Arr(At(v, p).value.entries[k := x]), x);
  }

  /** The setters with overwriting off, one for each default. */
  method SetDefaults(node: Config, ds: Defaults)
    requires node.Valid() && AreSingle(ds)
    modifies node.store
    ensures node.Valid() && node.Node() == Arr(Fill(ds, old(node.Node()).entries))
    ensures node.store.tree == Replace(old(node.store.tree), node.path, node.Node())
  {
    ghost var tree := node.store.tree;
    ReplaceSame(tree, node.path);
    for i := 0 to |ds|
      invariant node.Valid() && Fill(ds[i..], node.Node().entries) == Fill(ds, old(node.Node()).entries)
      invariant node.store.tree == Replace(tree, node.path, node.Node())
    {
      ghost var before := node.Node();
      SingleKey(ds[i].0);
      SetMissing(before, ds[i].0, ds[i].1);
      var _ := node.Set(ds[i].0, ds[i].1, KEEP);
      ReplaceTwice(tree, node.path, before, node.Node());
      assert ds[i..][1..] == ds[i + 1..];
    }
  }

  /** A section is filled through a node of its own; it has to be an array. */
  method FillSection(top: Config, key: string, ds: Defaults) returns (ok: bool)
    requires top.Valid() && IsSingle(key) && AreSingle(ds)
    modifies top.store
    ensures top.Valid() && top.store.tree == Replace(old(top.store.tree), top.path, top.Node())
    ensures ok == Key(old(top.Node()).entries, key).Arr?
    ensures ok ==> top.Node() == Arr(old(top.Node()).entries[key := FillValue(ds, Key(old(top.Node()).entries, key))])
    ensures !ok ==> top.Node() == old(top.Node())
  {
    SingleKey(key);
    ReadKey(top.Node(), key);
    ReplaceSame(top.store.tree, top.path);
    var section := top.GetConfig(key);
    if section == null {
      return false;
    }
    ghost var tree := top.store.tree;
    SetDefaults(section, ds);
    ChildWritten(tree, top.path, key, section.Node());
    return true;
  }

  /** A server is filled through its own node. */
  method FillChild(above: Config, child: Config, key: string, ds: Defaults)
    requires above.Valid() && child.store == above.store && child.path == above.path + [key] && AreSingle(ds)
    requires key in ArrayKeys(above.Node().entries)
    modifies above.store
    ensures above.Valid() && above.store.tree == Replace(old(above.store.tree), above.path, above.Node())
    ensures above.Node() == Arr(old(above.Node()).entries[key := FillValue(ds, old(above.Node()).entries[key])])
    ensures child.Valid() && child.Node() == above.Node().entries[key]
  {
    AtAppend(above.store.tree, above.path, [key]);
    assert [key][1..] == [];
    ghost var tree := above.store.tree;
    SetDefaults(child, ds);
    ChildWritten(tree, above.path, key, child.Node());
  }

  /** Address and port of a section. */
  method CheckEndpoint(node: Config, key: string) returns (ok: bool)
    requires node.Valid() && IsSingle(key)
    ensures ok == HasEndpoint(Key(node.Node().entries, key))
  {
    ReadKey(node.Node(), key);
    var section := node.GetConfig(key);
    if section == null {
      return false;
    }
    ReadKey(section.Node(), "Address");
    ReadKey(section.Node(), "Port");
    var address := section.GetValue("Address");
    if !Truthy(address) {
      return false;
    }
    var port := section.GetValue("Port");
    return Truthy(port);
  }

  /** The name, or no acceptance: missing, or already seen. */
  method CheckName(node: Config, names: set<Value>, same: (Value, Value) -> bool) returns (ok: bool, name: Value)
    requires node.Valid()
    ensures name == ServerName(node.Node())
    ensures ok == (Truthy(name) && forall n :: n in names ==> !same(name, n))
  {
    ReadKey(node.Node(), "ServerName");
    name := node.GetValue("ServerName");
    ok := Truthy(name) && forall n :: n in names ==> !same(name, n);
  }

  /** The children that are not to do any more are filled. */
  function HalfFilled(ds: Defaults, t: Tree, todo: set<string>): Tree {
    map k | k in t :: if k in todo then t[k] else FillValue(ds, t[k])
  }

  function Names(t: Tree, keys: set<string>): set<Value>
    requires keys <= t.Keys
  {
    set k | k in keys :: ServerName(t[k])
  }

  lemma FilledStep(ds: Defaults, t: Tree, todo: set<string>, key: string)
    requires key in todo && key in t
    ensures key in HalfFilled(ds, t, todo) && HalfFilled(ds, t, todo)[key := FillValue(ds, t[key])] ==
      HalfFilled(ds, t, todo - {key})
  {
  }

  /** One more name, different from all others. */
  lemma OneMoreName(t: Tree, keys: set<string>, key: string, same: (Value, Value) -> bool)
    requires IsLooseEquality(same) && keys + {key} <= t.Keys && key !in keys && NamesDiffer(t, keys, same)
    ensures NamesDiffer(t, keys + {key}, same) <==> forall n :: n in Names(t, keys) ==> !same(ServerName(t[key]), n)
    ensures Names(t, keys + {key}) == Names(t, keys) + {ServerName(t[key])}
  {
    assert forall k :: k in keys ==> ServerName(t[k]) in Names(t, keys);
    if NamesDiffer(t, keys + {key}, same) {
      forall n | n in Names(t, keys) ensures !same(ServerName(t[key]), n) {
        var k :| k in keys && ServerName(t[k]) == n;
      }
    }
  }

  lemma FewerNames(t: Tree, few: set<string>, many: set<string>, same: (Value, Value) -> bool)
    requires few <= many <= t.Keys && NamesDiffer(t, many, same)
    ensures NamesDiffer(t, few, same)
  {
  }

  /** One char/map server: its defaults, then its name and its two endpoints. */
  method NormaliseServer(servers: Config, server: Config, key: string, ds: Defaults, names: set<Value>,
      same: (Value, Value) -> bool,
      ghost before: Tree, ghost todo: set<string>) returns (ok: bool, name: Value)
    requires servers.Valid() && server.store == servers.store && server.path == servers.path + [key] && AreSingle(ds)
    requires key in todo && key in ArrayKeys(before) && servers.Node().entries == HalfFilled(ds, before, todo)
    modifies servers.store
    ensures servers.Valid() && servers.store.tree == Replace(old(servers.store.tree), servers.path, servers.Node())
    ensures servers.Node().entries == HalfFilled(ds, before, todo - {key})
    ensures name == ServerName(FillValue(ds, before[key]))
    ensures ok == (ServerOk(FillValue(ds, before[key]).entries) && forall n :: n in names ==> !same(name, n))
  {
    FilledStep(ds, before, todo, key);
    FillChild(servers, server, key, ds);
    var named, charOk, mapOk;
    named, name := CheckName(server, names, same);
    charOk := CheckEndpoint(server, "CharServer");
    mapOk := CheckEndpoint(server, "MapServer");
    ok := named && charOk && mapOk;
  }

  /** Halfway through the servers: those not to do any more are filled, accepted
      and named apart. */
  ghost predicate HalfAccepted(ds: Defaults, t: Tree, now: Tree, todo: set<string>, names: set<Value>,
      same: (Value, Value) -> bool) {
    var filled := FillChildren(ds, Arr(t)).entries;
    && todo <= ArrayKeys(t) == ArrayKeys(filled) && now == HalfFilled(ds, t, todo)
    && ServersOk(filled, ArrayKeys(filled) - todo, same) && names == Names(filled, ArrayKeys(filled) - todo)
  }

  lemma HalfAcceptedStarts(ds: Defaults, t: Tree, same: (Value, Value) -> bool)
    ensures HalfAccepted(ds, t, t, ArrayKeys(t), {}, same)
  {
    assert HalfFilled(ds, t, ArrayKeys(t)) == t;
    var filled := FillChildren(ds, Arr(t)).entries;
    assert ArrayKeys(filled) - ArrayKeys(t) == {};
  }

  lemma HalfAcceptedEnds(ds: Defaults, t: Tree, now: Tree, names: set<Value>, same: (Value, Value) -> bool)
    requires HalfAccepted(ds, t, now, {}, names, same)
    ensures var filled := FillChildren(ds, Arr(t)).entries; now == filled && ServersOk(filled, ArrayKeys(filled), same)
  {
    var filled := FillChildren(ds, Arr(t)).entries;
    assert HalfFilled(ds, t, {}) == filled;
    assert ArrayKeys(filled) - {} == ArrayKeys(filled);
  }

  lemma HalfAcceptedStep(ds: Defaults, t: Tree, now: Tree, todo: set<string>, names: set<Value>, key: string,
      same: (Value, Value) -> bool)
    requires IsLooseEquality(same) && HalfAccepted(ds, t, now, todo, names, same) && key in todo
    ensures var x := FillValue(ds, t[key]); var filled := FillChildren(ds, Arr(t)).entries;
      if x.Arr? && ServerOk(x.entries) && forall n :: n in names ==> !same(ServerName(x), n)
      then HalfAccepted(ds, t, HalfFilled(ds, t, todo - {key}), todo - {key}, names + {ServerName(x)}, same)
      else !ServersOk(filled, ArrayKeys(filled), same)
  {
    var filled := FillChildren(ds, Arr(t)).entries;
    OneMoreServer(filled, ArrayKeys(filled) - todo, key, same);
    assert ArrayKeys(filled) - (todo - {key}) == ArrayKeys(filled) - todo + {key};
  }

  /** The char/map servers of a group. */
  method NormaliseServers(servers: Config, database: Value, same: (Value, Value) -> bool) returns (ok: bool)
    requires servers.Valid() && IsLooseEquality(same)
    modifies servers.store
    ensures servers.Valid() && servers.store.tree == Replace(old(servers.store.tree), servers.path, servers.Node())
    ensures var filled := FillChildren(Server(database), old(servers.Node()));
      (ok <==> ServersOk(filled.entries, ArrayKeys(filled.entries), same)) && (ok ==> servers.Node() == filled)
  {
    ghost var tree, before := servers.store.tree, servers.Node().entries;
    var ds := Server(database);
    ReplaceSame(tree, servers.path);
    DefaultsAreSingle(database);
    var children := servers.GetChildrenConfigs();
    var todo := children.Keys;
    var names: set<Value> := {};
    HalfAcceptedStarts(ds, before, same);
    while todo != {}
      invariant todo <= children.Keys
      invariant servers.Valid() && servers.store.tree == Replace(tree, servers.path, servers.Node())
      invariant HalfAccepted(ds, before, servers.Node().entries, todo, names, same)
    {
      var key :| key in todo;
      ghost var now := servers.Node();
      HalfAcceptedStep(ds, before, now.entries, todo, names, key, same);
      var name;
      ok, name := NormaliseServer(servers, children[key], key, ds, names, same, before, todo);
      ReplaceTwice(tree, servers.path, now, servers.Node());
      if !ok {
        return false;
      }
      names := names + {name};
      todo := todo - {key};
    }
    ok := true;
    HalfAcceptedEnds(ds, before, servers.Node().entries, names, same);
  }

  lemma OneMoreServer(t: Tree, keys: set<string>, key: string, same: (Value, Value) -> bool)
    requires IsLooseEquality(same) && keys + {key} <= ArrayKeys(t) && key !in keys && ServersOk(t, keys, same)
    ensures var ok := ServerOk(t[key].entries) && forall n :: n in Names(t, keys) ==> !same(ServerName(t[key]), n);
      (ok ==> ServersOk(t, keys + {key}, same)) && (!ok ==> !ServersOk(t, ArrayKeys(t), same))
    ensures Names(t, keys + {key}) == Names(t, keys) + {ServerName(t[key])}
  {
    OneMoreName(t, keys, key, same);
    if ServersOk(t, ArrayKeys(t), same) { FewerNames(t, keys + {key}, ArrayKeys(t), same); }
  }

  /** The sections and databases of a group; one that is not an array stops the
      parser. */
  method FillDatabases(top: Config) returns (ok: bool)
    requires top.Valid()
    modifies top.store
    ensures top.Valid() && top.store.tree == Replace(old(top.store.tree), top.path, top.Node())
    ensures var g := WithDatabases(old(top.Node()).entries);
      (ok <==> Key(g, "DbConfig").Arr? && Key(g, "LogsDbConfig").Arr? && Key(g, "WebDbConfig").Arr?) &&
        (ok ==> top.Node() == Arr(g))
  {
    ghost var tree, g := top.store.tree, top.Node().entries;
    HasSections(g);
    DefaultsAreSingle(NULL);
    SetDefaults(top, SECTIONS);
    ghost var g0 := top.Node();
    ok := FillSection(top, "DbConfig", DATABASE);
    ghost var g1 := top.Node();
    ReplaceTwice(tree, top.path, g0, g1);
    if !ok { return; }
    ok := FillSection(top, "LogsDbConfig", DATABASE);
    ghost var g2 := top.Node();
    ReplaceTwice(tree, top.path, g1, g2);
    if !ok { return; }
    ok := FillSection(top, "WebDbConfig", DATABASE);
    ReplaceTwice(tree, top.path, g2, top.Node());
  }

  /** A group: its databases, its login server, its char/map servers. */
  method NormaliseGroup(top: Config, same: (Value, Value) -> bool) returns (ok: bool)
    requires top.Valid() && IsLooseEquality(same)
    modifies top.store
    ensures top.Valid() && top.store.tree == Replace(old(top.store.tree), top.path, top.Node())
    ensures var g := NormalGroup(old(top.Node()).entries);
      (ok <==> SectionsOk(g, same)) && (ok ==> top.Node() == Arr(g))
  {
    ghost var tree := top.store.tree;
    HasSections(top.Node().entries);
    DatabasesStay(top.Node().entries);
    ok := FillDatabases(top);
    if !ok { return; }
    ghost var before := top.Node();
    ok := FinishGroup(top, same);
    ReplaceTwice(tree, top.path, before, top.Node());
  }

  lemma DatabasesStay(g: Tree)
    ensures var d, n := WithDatabases(g), NormalGroup(g);
      Key(n, "DbConfig") == Key(d, "DbConfig") && Key(n, "LogsDbConfig") == Key(d, "LogsDbConfig") &&
        Key(n, "WebDbConfig") == Key(d, "WebDbConfig")
  {
    HasSections(g);
  }

  /** The login server and the char/map servers, once the databases are filled. */
  method FinishGroup(top: Config, same: (Value, Value) -> bool) returns (ok: bool)
    requires top.Valid() && IsLooseEquality(same)
    requires "LoginServer" in top.Node().entries && "CharMapServers" in top.Node().entries &&
      Key(top.Node().entries, "DbConfig").Arr?
    modifies top.store
    ensures top.Valid() && top.store.tree == Replace(old(top.store.tree), top.path, top.Node())
    ensures var g := WithServers(old(top.Node()).entries);
      (ok <==> ServersPartOk(g, same)) && (ok ==> top.Node() == Arr(g))
  {
    ghost var tree := top.store.tree;
    var database := ReadDatabase(top);
    DefaultsAreSingle(database);
    ok := FillSection(top, "LoginServer", Login(database));
    if !ok { return; }
    ok := CheckEndpoint(top, "LoginServer");
    if !ok { return; }
    ghost var before := top.Node();
    ok := FillServers(top, database, same);
    ReplaceTwice(tree, top.path, before, top.Node());
  }

  method ReadDatabase(top: Config) returns (database: Value)
    requires top.Valid() && Key(top.Node().entries, "DbConfig").Arr?
    ensures database == DatabaseOf(top.Node().entries)
  {
    ReadKey(top.Node(), "DbConfig");
    var dbConfig := top.GetConfig("DbConfig");
    ReadKey(dbConfig.Node(), "Database");
    database := dbConfig.GetValue("Database");
  }

  /** The array of char/map servers, with at least one entry. */
  method FillServers(top: Config, database: Value, same: (Value, Value) -> bool) returns (ok: bool)
    requires top.Valid() && "CharMapServers" in top.Node().entries && IsLooseEquality(same)
    modifies top.store
    ensures top.Valid() && top.store.tree == Replace(old(top.store.tree), top.path, top.Node())
    ensures var servers := FillChildren(Server(database), old(top.Node()).entries["CharMapServers"]);
      && (ok <==>
        servers.Arr? && servers.entries != map[] && ServersOk(servers.entries, ArrayKeys(servers.entries), same))
      && (ok ==> top.Node() == Arr(old(top.Node()).entries["CharMapServers" := servers]))
  {
    ghost var tree := top.store.tree;
    ReplaceSame(tree, top.path);
    SingleKey("CharMapServers");
    ReadKey(top.Node(), "CharMapServers");
    var servers := top.GetConfig("CharMapServers");
    if servers == null { return false; }
    ghost var filled := FillChildren(Server(database), servers.Node()).entries;
    assert filled.Keys == servers.Node().entries.Keys;
    if servers.Node().entries.Keys == {} { return false; }
    ok := NormaliseServers(servers, database, same);
    ChildWritten(tree, top.path, "CharMapServers", servers.Node());
  }

  /** Filling leaves the name as it is. */
  lemma NameIsKept(v: Value)
    ensures ServerName(NormalTop(v)) == ServerName(v)
  {
    if v.Arr? { KeyIsKept(v.entries, "ServerName"); }
  }

  lemma KeyIsKept(g: Tree, key: string)
    requires key !in {"DbConfig", "LogsDbConfig", "WebDbConfig", "LoginServer", "CharMapServers"}
    ensures Key(NormalGroup(g), key) == Key(g, key)
  {
    SectionsOfNormal(g);
    FillSkips(SECTIONS, g, key);
  }

  /** A key without a default is left as it is. */
  lemma {:induction false} FillSkips(ds: Defaults, g: Tree, key: string)
    requires forall i :: 0 <= i < |ds| ==> ds[i].0 != key
    ensures Key(Fill(ds, g), key) == Key(g, key)
  {
    if ds != [] { FillSkips(ds[1..], AddMissing(g, ds[0].0, ds[0].1), key); }
  }

  /** The groups that are not to do any more are in normal form. */
  function HalfNormal(t: Tree, todo: set<string>): Tree {
    map k | k in t :: if k in todo then t[k] else NormalTop(t[k])
  }

  lemma NormalStep(t: Tree, todo: set<string>, key: string)
    requires key in todo && key in t
    ensures key in HalfNormal(t, todo) && HalfNormal(t, todo)[key := NormalTop(t[key])] == HalfNormal(t, todo - {key})
  {
  }

  /** One top-level group. */
  method ParseGroup(config: Config, top: Config, key: string, names: set<Value>, same: (Value, Value) -> bool,
      ghost before: Tree, ghost todo: set<string>) returns (ok: bool, name: Value)
    requires config.Valid() && top.store == config.store && top.path == config.path + [key] && IsLooseEquality(same)
    requires key in todo && key in ArrayKeys(before) && config.Node().entries == HalfNormal(before, todo)
    modifies config.store
    ensures config.Valid() && config.store.tree == Replace(old(config.store.tree), config.path, config.Node())
    ensures name == ServerName(NormalTop(before[key]))
    ensures ok == (GroupOk(NormalTop(before[key]).entries, same) && forall n :: n in names ==> !same(name, n))
    ensures ok ==> config.Node().entries == HalfNormal(before, todo - {key})
  {
    ghost var tree := config.store.tree;
    AtAppend(tree, config.path, [key]);
    assert [key][1..] == [] && At(config.Node(), [key]) == Some(before[key]);
    ReplaceSame(tree, config.path);
    NameIsKept(before[key]);
    ok, name := CheckName(top, names, same);
    if !ok || name.Arr? {
      return false, name;
    }
    ok := NormaliseGroup(top, same);
    ChildWritten(tree, config.path, key, top.Node());
    NormalStep(before, todo, key);
  }

  lemma OneMoreGroup(t: Tree, keys: set<string>, key: string, same: (Value, Value) -> bool)
    requires IsLooseEquality(same) && keys + {key} <= ArrayKeys(t) && key !in keys && GroupsOk(t, keys, same)
    ensures var ok := GroupOk(t[key].entries, same) && forall n :: n in Names(t, keys) ==> !same(ServerName(t[key]), n);
      (ok ==> GroupsOk(t, keys + {key}, same)) && (!ok ==> !GroupsOk(t, ArrayKeys(t), same))
    ensures Names(t, keys + {key}) == Names(t, keys) + {ServerName(t[key])}
  {
    OneMoreName(t, keys, key, same);
    if GroupsOk(t, ArrayKeys(t), same) { FewerNames(t, keys + {key}, ArrayKeys(t), same); }
  }

  /** Halfway through the groups: those not to do any more are normal, accepted
      and named apart. */
  ghost predicate HalfParsed(t: Tree, now: Tree, todo: set<string>, names: set<Value>, same: (Value, Value) -> bool) {
    var normal := Normal(t);
    && todo <= ArrayKeys(t) == ArrayKeys(normal) && now == HalfNormal(t, todo)
    && GroupsOk(normal, ArrayKeys(normal) - todo, same) && names == Names(normal, ArrayKeys(normal) - todo)
  }

  lemma HalfParsedStarts(t: Tree, same: (Value, Value) -> bool)
    ensures HalfParsed(t, t, ArrayKeys(t), {}, same)
  {
    assert HalfNormal(t, ArrayKeys(t)) == t;
    assert ArrayKeys(Normal(t)) - ArrayKeys(t) == {};
  }

  lemma HalfParsedEnds(t: Tree, now: Tree, names: set<Value>, same: (Value, Value) -> bool)
    requires HalfParsed(t, now, {}, names, same)
    ensures now == Normal(t) && GroupsOk(Normal(t), ArrayKeys(Normal(t)), same)
  {
    assert HalfNormal(t, {}) == Normal(t);
    assert ArrayKeys(Normal(t)) - {} == ArrayKeys(Normal(t));
  }

  lemma HalfParsedStep(t: Tree, now: Tree, todo: set<string>, names: set<Value>, key: string,
      same: (Value, Value) -> bool)
    requires IsLooseEquality(same) && HalfParsed(t, now, todo, names, same) && key in todo
    ensures var x := NormalTop(t[key]);
      if x.Arr? && GroupOk(x.entries, same) && forall n :: n in names ==> !same(ServerName(x), n)
      then HalfParsed(t, HalfNormal(t, todo - {key}), todo - {key}, names + {ServerName(x)}, same)
      else !GroupsOk(Normal(t), ArrayKeys(Normal(t)), same)
  {
    var normal := Normal(t);
    OneMoreGroup(normal, ArrayKeys(normal) - todo, key, same);
    assert ArrayKeys(normal) - (todo - {key}) == ArrayKeys(normal) - todo + {key};
  }

  /** The loop over the groups, in any order. */
  method ParseGroups(config: Config, children: map<string, Config>, same: (Value, Value) -> bool) returns (ok: bool)
    requires config.Valid() && IsLooseEquality(same) && children.Keys == ArrayKeys(config.Node().entries)
    requires forall k :: k in children ==> children[k].store == config.store && children[k].path == config.path + [k]
    modifies config.store
    ensures config.Valid()
    ensures var normal := Normal(old(config.Node()).entries);
      (ok <==> GroupsOk(normal, ArrayKeys(normal), same)) && (ok ==> config.Node().entries == normal)
  {
    ghost var before := config.Node().entries;
    var todo := children.Keys;
    var names: set<Value> := {};
    HalfParsedStarts(before, same);
    while todo != {}
      invariant todo <= children.Keys
      invariant config.Valid() && HalfParsed(before, config.Node().entries, todo, names, same)
    {
      var key :| key in todo;
      HalfParsedStep(before, config.Node().entries, todo, names, key, same);
      var name;
      ok, name := ParseGroup(config, children[key], key, names, same, before, todo);
      if !ok {
        return false;
      }
      names, todo := names + {name}, todo - {key};
    }
    ok := true;
    HalfParsedEnds(before, config.Node().entries, names, same);
  }

  /** `parseServersConfigFile`: the tree ends in its normal form, if that is
      acceptable; the order of the groups does not matter. */
  method ParseServersConfig(config: Config, imported: bool, same: (Value, Value) -> bool) returns (ok: bool)
    requires config.Valid() && IsLooseEquality(same)
    modifies config.store
    ensures config.Valid()
    ensures ok <==> IsNormal(Normal(old(config.Node()).entries), imported, same)
    ensures ok ==> config.Node() == Arr(Normal(old(config.Node()).entries))
  {
    assert Normal(config.Node().entries).Keys == config.Node().entries.Keys;
    if config.Node().entries.Keys == {} && !imported {
      return false;
    }
    var children := config.GetChildrenConfigs();
    ok := ParseGroups(config, children, same);
  }
}
