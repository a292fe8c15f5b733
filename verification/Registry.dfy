/**
 * Publishing, yanking and reconciling artifacts (cookbook_server.c). The object store is a map,
 * the artifacts table a map from coordinate to row, and each handler one atomic step.
 */
module Registry {
  import opened Wrappers
  import Buffer
  import SemVer
  import SemVerText

  /** One row of the artifacts table. */
  datatype Row = Row(group: string, artifact: string, version: string, published: bool, yanked: bool, since: int)

  /** One row of artifact_semver, which has no key: the coordinate and the parsed version. */
  datatype SemRow = SemRow(coord: string, version: SemVer.Version)

  /** What parsing the body of a now.pasta gives. */
  datatype Descriptor =
    | Unparsable
    | Incomplete
    | Descriptor(group: string, artifact: string, version: string)

  /**
   * A PUT under dir/artifact/version/filename. `attested` says that the body parses to a map with the two fields of
   * a .repro file, `signature` is the countersignature when the registry has a key, `digest` the SHA-256 of the body.
   */
  datatype Request = Request(
    dir: string, artifact: string, version: string, filename: string,
    body: string, attested: bool, desc: Descriptor,
    signature: Option<string>, digest: string, triple: string)

  // ---- names ----

  const KEY_MAX: nat := 511
  const COORD_MAX: nat := 255

  function Dots(s: string): (r: string)
    ensures |r| == |s|
  {
    seq(|s|, i requires 0 <= i < |s| => if s[i] == '/' then '.' else s[i])
  }

  function Slashes(s: string): (r: string)
    ensures |r| == |s|
  {
    seq(|s|, i requires 0 <= i < |s| => if s[i] == '.' then '/' else s[i])
  }

  predicate NameChar(c: char) {
    c == '-' || c == '_' || 'a' <= c <= 'z' || '0' <= c <= '9'
  }

  predicate ValidGroup(g: string) {
    && 0 < |g| <= 128
    && (forall i :: 0 <= i < |g| ==> NameChar(g[i]) || g[i] == '.')
    && (forall i :: 0 < i < |g| ==> !(g[i - 1] == '.' && g[i] == '.'))
  }

  predicate ValidArtifact(a: string) {
    0 < |a| <= 64 && forall i :: 0 <= i < |a| ==> NameChar(a[i])
  }

  predicate ValidDescriptor(d: Descriptor) {
    d.Descriptor? && SemVerText.Parse(d.version).Some? && ValidGroup(d.group) && ValidArtifact(d.artifact)
  }

  function Dir(registry: string, r: Request): string {
    registry + "/" + r.dir + "/" + r.artifact + "/" + r.version + "/"
  }

  function PathOf(r: Request): string {
    r.dir + "/" + r.artifact + "/" + r.version + "/" + r.filename
  }

  /** validate_path_segment on the whole path. */
  predicate PathOk(p: string) {
    && (forall i :: 0 <= i < |p| ==> p[i] >= ' ' && p[i] != '\\')
    && (forall i :: 0 < i < |p| ==> !(p[i - 1] == '.' && p[i] == '.'))
  }

  /** The path is let through, and its last three segments are the artifact, the version and the file name. */
  predicate Routable(r: Request) {
    PathOk(PathOf(r)) && '/' !in r.artifact && '/' !in r.version && '/' !in r.filename
  }

  /** validate_group and validate_artifact on the parts of the path. */
  predicate Named(r: Request) {
    ValidGroup(Dots(r.dir)) && ValidArtifact(r.artifact)
  }

  /** The object store key of a request. */
  function Key(registry: string, r: Request): string {
    Dir(registry, r) + r.filename
  }

  /** Where the descriptor of a coordinate belongs. */
  function FullKey(registry: string, g: string, a: string, v: string): string {
    registry + "/" + Slashes(g) + "/" + a + "/" + v + "/now.pasta"
  }

  /** The key try_publish looks for. */
  function ProbeKey(registry: string, g: string, a: string, v: string): string {
    Buffer.Cut(registry + "/" + Slashes(Buffer.Cut(g, 255)) + "/" + a + "/" + v + "/now.pasta", KEY_MAX)
  }

  /** The probe is the descriptor's own key exactly when it fits the buffers. */
  lemma ProbeIsFull(registry: string, g: string, a: string, v: string)
    ensures ProbeKey(registry, g, a, v) == FullKey(registry, g, a, v)
      <==> |g| <= 255 && |FullKey(registry, g, a, v)| <= KEY_MAX
  {
  }

  function CountersigKey(key: string): string {
    Buffer.Cut(key + ".countersig", KEY_MAX)
  }

  function ShaKey(key: string): string {
    Buffer.Cut(key + ".sha256", KEY_MAX)
  }

  function Coord(d: Descriptor, triple: string): string
    requires d.Descriptor?
  {
    Buffer.Cut(d.group + ":" + d.artifact + ":" + d.version + ":" + triple, COORD_MAX)
  }

  // ---- the state machine ----

  type Store = map<string, string>
  type Rows = map<string, Row>

  /** `accepted` remembers the bodies answered with 201. */
  datatype State = State(store: Store, rows: Rows, semver: seq<SemRow>, accepted: Store)

  const Init := State(map[], map[], [], map[])

  datatype Event =
    | Put(request: Request, now: int)
    | Yank(group: string, artifact: string, version: string)
    | Reconcile(stale: seq<string>, cutoff: int)

  predicate Is(row: Row, g: string, a: string, v: string) {
    row.group == g && row.artifact == a && row.version == v
  }

  /** UPDATE artifacts SET status = 'published' */
  function Publish(rows: Rows, g: string, a: string, v: string): (t: Rows)
    ensures t.Keys == rows.Keys
  {
    map c | c in rows :: if Is(rows[c], g, a, v) then rows[c].(published := true) else rows[c]
  }

  function TryPublish(registry: string, store: Store, rows: Rows, g: string, a: string, v: string): (t: Rows)
    ensures t.Keys == rows.Keys
  {
    if ProbeKey(registry, g, a, v) in store then Publish(rows, g, a, v) else rows
  }

  /** UPDATE artifacts SET yanked = 1 */
  function YankRows(rows: Rows, g: string, a: string, v: string): (t: Rows)
    ensures t.Keys == rows.Keys
  {
    map c | c in rows :: if Is(rows[c], g, a, v) then rows[c].(yanked := true) else rows[c]
  }

  predicate Ascii(body: string) {
    forall c :: c in body ==> 0 < c as int < 128
  }

  /** A name with something before the suffix. */
  predicate IsRepro(filename: string) {
    |filename| > 6 && EndsWith(filename, ".repro")
  }

  /** A descriptor is ASCII; an attestation is ASCII and has its fields. */
  predicate Sound(r: Request) {
    && (r.filename == "now.pasta" ==> Ascii(r.body))
    && (IsRepro(r.filename) ==> Ascii(r.body) && r.attested)
  }

  /** The request gets past every check made before the body is stored. */
  predicate Storable(registry: string, s: State, r: Request) {
    Named(r) && Key(registry, r) !in s.store && r.body != "" && Sound(r)
  }

  predicate Deleted(r: Request) {
    r.filename == "now.pasta" && (r.desc.Unparsable? || (r.desc.Descriptor? && !ValidDescriptor(r.desc)))
  }

  predicate Registers(r: Request) {
    r.filename == "now.pasta" && ValidDescriptor(r.desc)
  }

  /** The store after the body and its sidecars are written. */
  function PutStore(registry: string, store: Store, r: Request): Store {
    var key := Key(registry, r);
    var with := store[key := r.body];
    var signed := if r.signature.Some? then with[CountersigKey(key) := r.signature.value] else with;
    if Deleted(r) then signed - {key}
    else if Registers(r) then signed[ShaKey(key) := r.digest]
    else signed
  }

  /** INSERT OR IGNORE INTO artifacts, as pending. */
  function Register(rows: Rows, d: Descriptor, triple: string, now: int): Rows
    requires d.Descriptor?
  {
    var c := Coord(d, triple);
    if c in rows then rows else rows[c := Row(d.group, d.artifact, d.version, false, false, now)]
  }

  function PutRows(registry: string, store: Store, rows: Rows, r: Request, now: int): Rows {
    if Registers(r) then
      TryPublish(registry, store, Register(rows, r.desc, r.triple, now), r.desc.group, r.desc.artifact, r.desc.version)
    else if r.filename == "now.pasta" then rows
    else TryPublish(registry, store, rows, Dots(r.dir), r.artifact, r.version)
  }

  function PutSemver(semver: seq<SemRow>, r: Request): seq<SemRow> {
    if Registers(r) then semver + [SemRow(Coord(r.desc, r.triple), SemVerText.Parse(r.desc.version).value)] else semver
  }

  function PutStep(registry: string, s: State, r: Request, now: int): State {
    if !Storable(registry, s, r) then s
    else
      var store := PutStore(registry, s.store, r);
      State(store, PutRows(registry, store, s.rows, r, now), PutSemver(s.semver, r),
            if Deleted(r) then s.accepted else s.accepted[Key(registry, r) := r.body])
  }

  /** DELETE FROM artifact_semver WHERE coord_id = c */
  function DropSemver(semver: seq<SemRow>, c: string): seq<SemRow> {
    if semver == [] then []
    else
      var init, last := DropSemver(semver[..|semver| - 1], c), semver[|semver| - 1];
      if last.coord == c then init else init + [last]
  }

  /** DELETE FROM artifacts WHERE coord_id = c AND status = 'pending' */
  function DropPending(rows: Rows, c: string): Rows {
    if c in rows && !rows[c].published then rows - {c} else rows
  }

  function Sweep(s: State, stale: seq<string>): State {
    if stale == [] then s
    else
      var t, c := Sweep(s, stale[..|stale| - 1]), stale[|stale| - 1];
      t.(rows := DropPending(t.rows, c), semver := DropSemver(t.semver, c))
  }

  predicate Stale(rows: Rows, c: string, cutoff: int) {
    c in rows && !rows[c].published && rows[c].since < cutoff
  }

  /**
   * A request has come through the router. The select returns distinct stale coordinates; the collector keeps
   * the first hundred.
   */
  ghost predicate Legal(s: State, e: Event) {
    && (e.Put? ==> Routable(e.request))
    && (e.Reconcile? ==>
      && |e.stale| <= 100
      && (forall i, j :: 0 <= i < j < |e.stale| ==> e.stale[i] != e.stale[j])
      && (forall i :: 0 <= i < |e.stale| ==> Stale(s.rows, e.stale[i], e.cutoff))
      && (|e.stale| < 100 ==> forall c :: Stale(s.rows, c, e.cutoff) ==> c in e.stale))
  }

  function Step(registry: string, s: State, e: Event): State {
    match e
    case Put(r, now) => PutStep(registry, s, r, now)
    case Yank(g, a, v) => s.(rows := YankRows(s.rows, g, a, v))
    case Reconcile(stale, _) => Sweep(s, stale)
  }

  // ---- what every step keeps ----

  predicate EndsWith(s: string, t: string) {
    |t| <= |s| && s[|s| - |t|..] == t
  }

  /** Keys no sidecar is ever written to: those that end differently, and those beyond the buffer. */
  predicate Protected(k: string) {
    || |k| > KEY_MAX
    || (|k| < KEY_MAX && !EndsWith(k, ".countersig") && !EndsWith(k, "/now.pasta.sha256"))
  }

  ghost predicate RowInv(registry: string, store: Store, semver: seq<SemRow>, c: string, row: Row) {
    && ValidDescriptor(Descriptor(row.group, row.artifact, row.version))
    && SemRow(c, SemVerText.Parse(row.version).value) in semver
    && (row.published ==> ProbeKey(registry, row.group, row.artifact, row.version) in store)
  }

  /** An upload that is let through writes the key, as its own or as a sidecar. */
  ghost predicate Writes(registry: string, r: Request, k: string) {
    && Named(r) && Routable(r)
    && (k == Key(registry, r) || k == CountersigKey(Key(registry, r))
        || (r.filename == "now.pasta" && k == ShaKey(Key(registry, r))))
  }

  ghost predicate Writable(registry: string, k: string) {
    exists r :: Writes(registry, r, k)
  }

  ghost predicate Inv(registry: string, s: State) {
    && (forall k :: k in s.store ==> Writable(registry, k))
    && (forall c :: c in s.rows ==> RowInv(registry, s.store, s.semver, c, s.rows[c]))
    && (forall k :: k in s.accepted ==> k in s.store)
    && (forall k :: k in s.accepted && Protected(k) ==> s.store[k] == s.accepted[k])
  }

  /** A published row stays, stays published and keeps its yank; nothing stored goes away. */
  ghost predicate Later(s: State, t: State) {
    && s.store.Keys <= t.store.Keys
    && s.accepted.Keys <= t.accepted.Keys
    && (forall k :: k in s.accepted ==> t.accepted[k] == s.accepted[k])
    && (forall c :: c in s.rows && s.rows[c].published ==> c in t.rows && Kept(s.rows[c], t.rows[c]))
  }

  ghost predicate Kept(was: Row, row: Row) {
    && row.published && Is(row, was.group, was.artifact, was.version)
    && (was.yanked ==> row.yanked)
  }

  /** Appending a suffix to a short key gives a key with that suffix; a cut key has full length. */
  lemma CutSuffix(key: string, suffix: string)
    requires |suffix| <= KEY_MAX
    ensures var k := Buffer.Cut(key + suffix, KEY_MAX); |k| == KEY_MAX || (|k| < KEY_MAX && EndsWith(k, suffix))
  {
    var k := key + suffix;
    if |k| < KEY_MAX {
      assert k[|k| - |suffix|..] == suffix;
    }
  }

  lemma SidecarsUnprotected(registry: string, r: Request)
    ensures !Protected(CountersigKey(Key(registry, r)))
    ensures r.filename == "now.pasta" ==> !Protected(ShaKey(Key(registry, r)))
  {
    hide EndsWith, Buffer.Cut, Dir;
    CutSuffix(Key(registry, r), ".countersig");
    if r.filename == "now.pasta" {
      PastaSha(registry, r);
    }
  }

  lemma PastaSha(registry: string, r: Request)
    requires r.filename == "now.pasta"
    ensures !Protected(ShaKey(Key(registry, r)))
  {
    hide EndsWith, Buffer.Cut;
    var d := registry + "/" + r.dir + "/" + r.artifact + "/" + r.version;
    assert Key(registry, r) + ".sha256" == d + "/now.pasta.sha256";
    CutSuffix(d, "/now.pasta.sha256");
  }

  /** An upload adds only keys it writes. */
  lemma PutStoreWrites(registry: string, s: State, r: Request)
    requires Storable(registry, s, r) && Routable(r)
    ensures forall k :: k in PutStore(registry, s.store, r) ==> k in s.store || Writes(registry, r, k)
  {
    hide Key, CountersigKey, ShaKey, ValidGroup, ValidArtifact, ValidDescriptor, SemVerText.Parse, Dots, Routable;
  }

  lemma PutStoreKeeps(registry: string, s: State, r: Request)
    requires Storable(registry, s, r)
    ensures var t := PutStore(registry, s.store, r);
      && s.store.Keys <= t.Keys
      && (forall k :: k in s.store && Protected(k) ==> t[k] == s.store[k])
      && (!Deleted(r) ==> Key(registry, r) in t && (Protected(Key(registry, r)) ==> t[Key(registry, r)] == r.body))
  {
    hide Protected, Key, CountersigKey, ShaKey, ValidGroup, ValidArtifact, ValidDescriptor, SemVerText.Parse;
    SidecarsUnprotected(registry, r);
  }

  /** Publishing only turns pending rows of one coordinate into published ones. */
  lemma TryPublishKeeps(registry: string, store: Store, semver: seq<SemRow>, rows: Rows,
                        g: string, a: string, v: string)
    requires forall c :: c in rows ==> RowInv(registry, store, semver, c, rows[c])
    ensures var t := TryPublish(registry, store, rows, g, a, v);
      && (forall c :: c in t ==> RowInv(registry, store, semver, c, t[c]))
      && (forall c :: c in rows && rows[c].published ==> Kept(rows[c], t[c]))
  {
    hide ProbeKey, ValidGroup, SemVerText.Parse;
  }

  lemma RegisterKeeps(registry: string, store: Store, semver: seq<SemRow>, rows: Rows,
                      d: Descriptor, triple: string, now: int)
    requires forall c :: c in rows ==> RowInv(registry, store, semver, c, rows[c])
    requires ValidDescriptor(d)
    ensures var t := Register(rows, d, triple, now);
      var more := semver + [SemRow(Coord(d, triple), SemVerText.Parse(d.version).value)];
      && (forall c :: c in t ==> RowInv(registry, store, more, c, t[c]))
      && (forall c :: c in rows ==> c in t && t[c] == rows[c])
  {
    hide ProbeKey, ValidGroup, ValidArtifact, Coord, SemVerText.Parse;
  }

  lemma RowsMono(registry: string, s: State, store: Store)
    requires Inv(registry, s) && s.store.Keys <= store.Keys
    ensures forall c :: c in s.rows ==> RowInv(registry, store, s.semver, c, s.rows[c])
  {
    hide ProbeKey, ValidGroup, Protected, SemVerText.Parse;
  }

  lemma PutRowsKeeps(registry: string, s: State, store: Store, r: Request, now: int)
    requires Inv(registry, s) && s.store.Keys <= store.Keys
    ensures var t := PutRows(registry, store, s.rows, r, now); var semver := PutSemver(s.semver, r);
      && (forall c :: c in t ==> RowInv(registry, store, semver, c, t[c]))
      && (forall c :: c in s.rows && s.rows[c].published ==> c in t && Kept(s.rows[c], t[c]))
  {
    hide RowInv, TryPublish, Register, Protected, ValidGroup, ValidArtifact, Coord, Kept, Dots, SemVerText.Parse;
    RowsMono(registry, s, store);
    var d := r.desc;
    if Registers(r) {
      var rows := Register(s.rows, d, r.triple, now);
      RegisterKeeps(registry, store, s.semver, s.rows, d, r.triple, now);
      TryPublishKeeps(registry, store, PutSemver(s.semver, r), rows, d.group, d.artifact, d.version);
    } else if r.filename == "now.pasta" {
      KeptRefl(s.rows);
    } else {
      TryPublishKeeps(registry, store, s.semver, s.rows, Dots(r.dir), r.artifact, r.version);
    }
  }

  lemma KeptRefl(rows: Rows)
    ensures forall c :: c in rows && rows[c].published ==> Kept(rows[c], rows[c])
  {
  }

  lemma PutKeeps(registry: string, s: State, r: Request, now: int)
    requires Inv(registry, s) && Routable(r)
    ensures Inv(registry, PutStep(registry, s, r, now)) && Later(s, PutStep(registry, s, r, now))
  {
    hide RowInv, Kept, Protected, PutStore, PutRows, PutSemver, Key, Named, Deleted, Routable, Writes;
    KeptRefl(s.rows);
    if Storable(registry, s, r) {
      var store := PutStore(registry, s.store, r);
      PutStoreWrites(registry, s, r);
      forall k | k in store
        ensures Writable(registry, k)
      {
        if k !in s.store {
          assert Writes(registry, r, k);
        }
      }
      hide Writable;
      PutStoreKeeps(registry, s, r);
      PutRowsKeeps(registry, s, store, r, now);
    }
  }

  lemma YankKeeps(registry: string, s: State, g: string, a: string, v: string)
    requires Inv(registry, s)
    ensures var t := s.(rows := YankRows(s.rows, g, a, v)); Inv(registry, t) && Later(s, t)
  {
    hide ProbeKey, Writable, ValidDescriptor, Protected, SemVerText.Parse;
  }

  lemma {:induction false} DropSemverMembers(semver: seq<SemRow>, c: string)
    ensures forall e :: e in DropSemver(semver, c) <==> e in semver && e.coord != c
  {
    if semver != [] {
      DropSemverMembers(semver[..|semver| - 1], c);
      assert semver == semver[..|semver| - 1] + [semver[|semver| - 1]];
    }
  }

  /** A sweep takes out exactly the given rows and their semver rows, all of them pending. */
  lemma {:induction false} SweepExact(s: State, stale: seq<string>)
    requires forall i :: 0 <= i < |stale| ==> stale[i] in s.rows && !s.rows[stale[i]].published
    ensures var t := Sweep(s, stale);
      && t.store == s.store && t.accepted == s.accepted
      && (forall c :: c in t.rows <==> c in s.rows && c !in stale)
      && (forall c :: c in t.rows ==> t.rows[c] == s.rows[c])
      && (forall e :: e in t.semver <==> e in s.semver && e.coord !in stale)
  {
    if stale != [] {
      var init, c := stale[..|stale| - 1], stale[|stale| - 1];
      assert forall i :: 0 <= i < |init| ==> init[i] == stale[i];
      SweepExact(s, init);
      DropSemverMembers(Sweep(s, init).semver, c);
      assert stale == init + [c];
    }
  }

  lemma ReconcileKeeps(registry: string, s: State, stale: seq<string>, cutoff: int)
    requires Inv(registry, s) && Legal(s, Reconcile(stale, cutoff))
    ensures Inv(registry, Sweep(s, stale)) && Later(s, Sweep(s, stale))
    ensures forall c :: c in s.rows && s.rows[c].published ==> c in Sweep(s, stale).rows
    ensures forall c :: c in s.rows && c !in Sweep(s, stale).rows ==>
      !s.rows[c].published && s.rows[c].since < cutoff
    ensures |stale| < 100 ==> forall c :: c in s.rows && !s.rows[c].published && s.rows[c].since < cutoff ==>
      c !in Sweep(s, stale).rows
  {
    hide ProbeKey, Writable, ValidDescriptor, Protected, Sweep, SemVerText.Parse;
    assert forall i :: 0 <= i < |stale| ==> Stale(s.rows, stale[i], cutoff);
    SweepExact(s, stale);
  }

  lemma StepKeeps(registry: string, s: State, e: Event)
    requires Inv(registry, s) && Legal(s, e)
    ensures Inv(registry, Step(registry, s, e)) && Later(s, Step(registry, s, e))
  {
    hide Inv, Later, PutStep, YankRows, Sweep, Routable;
    match e
    case Put(r, now) => PutKeeps(registry, s, r, now);
    case Yank(g, a, v) => YankKeeps(registry, s, g, a, v);
    case Reconcile(stale, cutoff) => ReconcileKeeps(registry, s, stale, cutoff);
  }

  // ---- whole runs ----

  ghost predicate IsRun(registry: string, states: seq<State>, events: seq<Event>) {
    && |states| == |events| + 1 && states[0] == Init
    && forall k :: 0 <= k < |events| ==>
      Legal(states[k], events[k]) && states[k + 1] == Step(registry, states[k], events[k])
  }

  lemma {:induction false} RunKeeps(registry: string, states: seq<State>, events: seq<Event>, k: nat)
    requires IsRun(registry, states, events) && k < |states|
    ensures Inv(registry, states[k])
  {
    hide Inv, Step, Legal, Later;
    if k > 0 {
      RunKeeps(registry, states, events, k - 1);
      StepKeeps(registry, states[k - 1], events[k - 1]);
      assert states[k - 1 + 1] == Step(registry, states[k - 1], events[k - 1]);
    } else {
      InitInv(registry);
    }
  }

  lemma InitInv(registry: string)
    ensures Inv(registry, Init)
  {
  }

  lemma LaterTrans(s: State, t: State, u: State)
    requires Later(s, t) && Later(t, u)
    ensures Later(s, u)
  {
  }

  lemma LaterRefl(s: State)
    ensures Later(s, s)
  {
  }

  lemma {:induction false} RunLater(registry: string, states: seq<State>, events: seq<Event>, j: nat, k: nat)
    requires IsRun(registry, states, events) && j <= k < |states|
    ensures Later(states[j], states[k])
  {
    hide Inv, Step, Legal, Later;
    if j == k {
      LaterRefl(states[j]);
    } else {
      RunLater(registry, states, events, j, k - 1);
      RunKeeps(registry, states, events, k - 1);
      StepKeeps(registry, states[k - 1], events[k - 1]);
      assert states[k - 1 + 1] == Step(registry, states[k - 1], events[k - 1]);
      LaterTrans(states[j], states[k - 1], states[k]);
    }
  }

  /** In every run a published row is never removed, demoted or un-yanked. */
  lemma PublishedForever(registry: string, states: seq<State>, events: seq<Event>, j: nat, k: nat, c: string)
    requires IsRun(registry, states, events) && j <= k < |states|
    requires c in states[j].rows && states[j].rows[c].published
    ensures c in states[k].rows && Kept(states[j].rows[c], states[k].rows[c])
  {
    hide Step, Legal, Kept, IsRun;
    RunLater(registry, states, events, j, k);
  }

  /** In every run a row has its semver row, and a published one its now.pasta when that key fits. */
  lemma PublishedComplete(registry: string, states: seq<State>, events: seq<Event>, k: nat, c: string)
    requires IsRun(registry, states, events) && k < |states| && c in states[k].rows
    ensures var s := states[k]; var row := s.rows[c];
      var full := FullKey(registry, row.group, row.artifact, row.version);
      && SemVerText.Parse(row.version).Some? && SemRow(c, SemVerText.Parse(row.version).value) in s.semver
      && (row.published && |full| <= KEY_MAX ==> full in s.store)
  {
    hide Step, Legal, IsRun, ProbeKey, FullKey, Protected;
    RunKeeps(registry, states, events, k);
    var row := states[k].rows[c];
    ProbeIsFull(registry, row.group, row.artifact, row.version);
    assert RowInv(registry, states[k].store, states[k].semver, c, row);
  }

  /** In every run the bytes accepted at a protected key are there ever after. */
  lemma AcceptedForever(registry: string, states: seq<State>, events: seq<Event>, j: nat, k: nat, key: string)
    requires IsRun(registry, states, events) && j <= k < |states|
    requires key in states[j].accepted
    ensures key in states[k].store
    ensures Protected(key) ==> states[k].store[key] == states[j].accepted[key]
  {
    hide Step, Legal, Kept, RowInv, IsRun, Protected;
    RunLater(registry, states, events, j, k);
    RunKeeps(registry, states, events, k);
  }

  // ---- which keys are immutable ----

  /** In every run, whatever was accepted under these names is what the store holds. */
  ghost predicate Immutable(registry: string, key: string) {
    forall states, events ::
      IsRun(registry, states, events) && key in Last(states).accepted
      ==> key in Last(states).store && Last(states).store[key] == Last(states).accepted[key]
  }

  ghost function Last(states: seq<State>): State {
    if states == [] then Init else states[|states| - 1]
  }

  /** A plain upload with a countersignature. */
  function Upload(r: Request, filename: string, body: string, sig: string): Request {
    r.(filename := filename, body := body, attested := true, desc := Incomplete, signature := Some(sig))
  }

  lemma OneEvent(registry: string, e: Event)
    requires e.Put? && Routable(e.request)
    ensures IsRun(registry, [Init, Step(registry, Init, e)], [e])
  {
    hide Step, Routable;
  }

  lemma TwoEvents(registry: string, e: Event, f: Event)
    requires e.Put? && f.Put? && Routable(e.request) && Routable(f.request)
    ensures var s := Step(registry, Init, e); IsRun(registry, [Init, s, Step(registry, s, f)], [e, f])
  {
    hide Step, Routable;
  }

  /** Under the same directory any good file name makes a good path. */
  lemma RoutableName(r: Request, q: Request)
    requires Routable(r) && q.dir == r.dir && q.artifact == r.artifact && q.version == r.version
    requires PathOk(q.filename) && '/' !in q.filename
    ensures Routable(q)
  {
    var d := r.dir + "/" + r.artifact + "/" + r.version + "/";
    var p, t := PathOf(r), d + q.filename;
    assert p == d + r.filename && PathOf(q) == t;
    assert forall i :: 0 <= i < |d| ==> p[i] == d[i] == t[i];
    assert d[|d| - 1] == '/';
  }

  lemma FileNameOk(r: Request)
    requires Routable(r)
    ensures PathOk(r.filename)
  {
    var d := r.dir + "/" + r.artifact + "/" + r.version + "/";
    var p, f := PathOf(r), r.filename;
    assert p == d + f;
    forall i | 0 <= i < |f|
      ensures f[i] >= ' ' && f[i] != '\\' && (i > 0 ==> !(f[i - 1] == '.' && f[i] == '.'))
    {
      assert p[|d| + i] == f[i];
      if i > 0 {
        assert p[|d| + i - 1] == f[i - 1];
      }
    }
  }

  lemma ShorterName(r: Request, q: Request)
    requires Routable(r) && q.dir == r.dir && q.artifact == r.artifact && q.version == r.version
    requires q.filename <= r.filename
    ensures Routable(q)
  {
    FileNameOk(r);
    assert q.filename == r.filename[..|q.filename|];
    RoutableName(r, q);
  }

  lemma SamePath(q: Request, u: Request)
    requires Routable(q) && u.dir == q.dir && u.artifact == q.artifact && u.version == q.version
    requires u.filename == q.filename
    ensures Routable(u)
  {
  }

  lemma KeyOf(registry: string, r: Request, name: string)
    ensures Key(registry, r.(filename := r.filename + name)) == Key(registry, r) + name
  {
    var q := r.(filename := r.filename + name);
    assert Dir(registry, q) == Dir(registry, r);
    hide Dir;
  }

  /** What a plain upload does to the store. */
  lemma UploadStep(registry: string, s: State, r: Request, fn: string, body: string, sig: string)
    requires Named(r) && body != "" && Ascii(body)
    requires Dir(registry, r) + fn !in s.store
    ensures var t := PutStep(registry, s, Upload(r, fn, body, sig), 0); var key := Dir(registry, r) + fn;
      t.store == s.store[key := body][CountersigKey(key) := sig] && t.accepted == s.accepted[key := body]
  {
    hide Buffer.Cut, Dots, ValidGroup, ValidArtifact, ProbeKey, CountersigKey, TryPublish, SemVerText.Parse;
    var u := Upload(r, fn, body, sig);
    assert Key(registry, u) == Dir(registry, r) + fn;
  }

  /** A key of exactly the buffer's length is overwritten by its own countersignature. */
  lemma FullLengthMutable(registry: string, r: Request)
    requires Named(r) && Routable(r) && |Key(registry, r)| == KEY_MAX
    ensures !Immutable(registry, Key(registry, r))
  {
    hide Named, Routable, PutStep, Dir, SemVerText.Parse;
    var key := Key(registry, r);
    var e := Put(Upload(r, r.filename, "x", "y"), 0);
    UploadStep(registry, Init, r, r.filename, "x", "y");
    assert CountersigKey(key) == key;
    SamePath(r, e.request);
    OneEvent(registry, e);
    assert Last([Init, Step(registry, Init, e)]) == Step(registry, Init, e);
  }

  /** Uploading a file overwrites a countersignature accepted earlier. */
  lemma CountersigMutable(registry: string, r: Request, fn: string)
    requires Named(r) && Routable(r)
    requires r.filename == fn + ".countersig" && |Key(registry, r)| < KEY_MAX
    ensures !Immutable(registry, Key(registry, r))
  {
    hide Named, Routable, PutStep, Dir, SemVerText.Parse;
    var key, base := Key(registry, r), Dir(registry, r) + fn;
    assert key == base + ".countersig" && CountersigKey(base) == key;
    var e, f := Put(Upload(r, r.filename, "x", "y"), 0), Put(Upload(r, fn, "x", "y"), 0);
    UploadStep(registry, Init, r, r.filename, "x", "y");
    assert |CountersigKey(key)| > |base|;
    var s := Step(registry, Init, e);
    UploadStep(registry, s, r, fn, "x", "y");
    SamePath(r, e.request);
    ShorterName(r, f.request);
    TwoEvents(registry, e, f);
    assert Last([Init, s, Step(registry, s, f)]) == Step(registry, s, f);
  }

  /** Uploading a descriptor overwrites a digest accepted earlier. */
  lemma DigestMutable(registry: string, r: Request)
    requires Named(r) && Routable(r)
    requires r.filename == "now.pasta.sha256" && |Key(registry, r)| < KEY_MAX
    ensures !Immutable(registry, Key(registry, r))
  {
    hide Named, Routable, PutStep, Dir, SemVerText.Parse;
    var key, base := Key(registry, r), Dir(registry, r) + "now.pasta";
    assert key == base + ".sha256" && ShaKey(base) == key;
    var e := Put(Upload(r, r.filename, "x", "y"), 0);
    UploadStep(registry, Init, r, r.filename, "x", "y");
    assert |CountersigKey(key)| > |base|;
    var s := Step(registry, Init, e);
    assert base !in s.store && key in s.accepted && s.accepted[key] == "x";
    var d := Descriptor(Dots(r.dir), r.artifact, "1.0.0");
    var q := r.(filename := "now.pasta", body := "x", attested := true, desc := d, signature := None, digest := "z");
    DigestStep(registry, s, r, q);
    SamePath(r, e.request);
    PastaRoutable(r, q);
    TwoEvents(registry, e, Put(q, 0));
    assert Last([Init, s, Step(registry, s, Put(q, 0))]) == Step(registry, s, Put(q, 0));
  }

  lemma PastaRoutable(r: Request, q: Request)
    requires Routable(r) && q.dir == r.dir && q.artifact == r.artifact && q.version == r.version
    requires q.filename == "now.pasta"
    ensures Routable(q)
  {
    hide Routable;
    RoutableName(r, q);
  }

  lemma SomeVersion()
    ensures SemVerText.Parse("1.0.0").Some?
  {
    hide SemVerText.Parse;
    var v := SemVer.Version(SemVerText.Number("1"), SemVerText.Number("0"), SemVerText.Number("0"), "", "");
    assert "1.0.0" == "1" + "." + ("0" + "." + ("0" + ""));
    assert SemVerText.Text3("1.0.0", "1", "0", "0", "") && SemVerText.Tail("", "", "");
    assert SemVerText.Reads("1.0.0", v);
    SemVerText.ParseExact("1.0.0", v);
  }

  lemma DigestStep(registry: string, s: State, r: Request, q: Request)
    requires Named(r) && Dir(registry, r) + "now.pasta" !in s.store
    requires q == r.(filename := "now.pasta", body := "x", attested := true,
                     desc := Descriptor(Dots(r.dir), r.artifact, "1.0.0"), signature := None, digest := "z")
    ensures var t := PutStep(registry, s, q, 0); var base := Dir(registry, r) + "now.pasta";
      t.store == s.store[base := "x"][ShaKey(base) := "z"] && t.accepted == s.accepted[base := "x"]
  {
    hide Buffer.Cut, Dots, ValidGroup, ValidArtifact, ProbeKey, ShaKey, TryPublish, Coord, SemVerText.Parse;
    SomeVersion();
    assert Key(registry, q) == Dir(registry, r) + "now.pasta";
  }

  /** Accepted bytes are immutable exactly at the protected keys. */
  lemma ImmutableIff(registry: string, r: Request)
    requires Named(r) && Routable(r)
    ensures Immutable(registry, Key(registry, r)) <==> Protected(Key(registry, r))
  {
    hide IsRun, Dots, ValidGroup, ValidArtifact, EndsWith, SemVerText.Parse;
    var key := Key(registry, r);
    if Protected(key) {
      forall states, events | IsRun(registry, states, events) && key in Last(states).accepted
        ensures key in Last(states).store && Last(states).store[key] == Last(states).accepted[key]
      {
        var n := |states| - 1;
        AcceptedForever(registry, states, events, n, n, key);
      }
    } else if |key| == KEY_MAX {
      FullLengthMutable(registry, r);
    } else if EndsWith(key, ".countersig") {
      var fn := FileSuffix(registry, r, "", ".countersig", ".countersig");
      CountersigMutable(registry, r, fn);
    } else {
      var fn := FileSuffix(registry, r, "/", "now.pasta.sha256", "/now.pasta.sha256");
      DigestMutable(registry, r);
    }
  }

  /** A key's suffix without a slash is a suffix of the file name; after a slash it is the whole name. */
  lemma FileSuffix(registry: string, r: Request, lead: string, suffix: string, end: string) returns (fn: string)
    requires '/' !in r.filename && '/' !in suffix && (lead == "" || lead == "/") && end == lead + suffix
    requires EndsWith(Key(registry, r), end)
    ensures r.filename == fn + suffix && (lead == "/" ==> fn == "")
  {
    hide Dots, ValidGroup, ValidArtifact, SemVerText.Parse;
    DirEnds(registry, r);
    fn := Tail(Dir(registry, r), r.filename, lead, suffix);
  }

  lemma Tail(d: string, f: string, lead: string, suffix: string) returns (fn: string)
    requires d != "" && d[|d| - 1] == '/' && '/' !in f && '/' !in suffix && (lead == "" || lead == "/")
    requires EndsWith(d + f, lead + suffix)
    ensures f == fn + suffix && (lead == "/" ==> fn == "")
  {
    var key := d + f;
    var rest := key[..|key| - |lead + suffix|];
    assert key == rest + (lead + suffix) == rest + lead + suffix;
    fn := SameTail(d, f, rest + lead, suffix);
    assert forall c :: c in fn ==> c in f;
    if lead == "/" {
      NoneBehind(d, fn, rest);
    }
  }

  lemma NoneBehind(d: string, fn: string, rest: string)
    requires d + fn == rest + "/" && '/' !in fn
    ensures fn == ""
  {
    assert (rest + "/")[|rest|] == '/';
  }

  /** Of two spellings of one text, one cut behind its last slash, the shorter end is an end of the longer. */
  lemma SameTail(d: string, f: string, e: string, suffix: string) returns (fn: string)
    requires d != "" && d[|d| - 1] == '/' && '/' !in suffix && d + f == e + suffix
    ensures f == fn + suffix && e == d + fn
  {
    assert forall i :: |e| <= i < |e + suffix| ==> (e + suffix)[i] == suffix[i - |e|];
    assert (d + f)[|d| - 1] == '/';
    fn := e[|d|..];
    assert d == (d + f)[..|d|] == e[..|d|];
    assert f == (d + f)[|d|..] == fn + suffix;
  }

  lemma DirEnds(registry: string, r: Request)
    ensures |Dir(registry, r)| > 0 && Dir(registry, r)[|Dir(registry, r)| - 1] == '/'
  {
  }

  // ---- the upload of a descriptor publishes ----

  /** The keys an accepted descriptor writes. */
  function DescriptorKeys(registry: string, r: Request): set<string> {
    var key := Key(registry, r);
    {key, ShaKey(key)} + (if r.signature.Some? then {CountersigKey(key)} else {})
  }

  /**
   * A descriptor whose now.pasta is not stored yet is published by its upload exactly when it is uploaded under
   * its own key, or a sidecar cut at the buffer's end happens to be that key; else it is accepted and stays pending.
   */
  lemma PublishesIffOwnKey(registry: string, s: State, r: Request, now: int)
    requires Storable(registry, s, r) && Registers(r) && Coord(r.desc, r.triple) !in s.rows
    requires var full := FullKey(registry, r.desc.group, r.desc.artifact, r.desc.version);
      |full| <= KEY_MAX && full !in s.store
    ensures var t := PutStep(registry, s, r, now); var c := Coord(r.desc, r.triple);
      && Key(registry, r) in t.accepted && c in t.rows
      && Is(t.rows[c], r.desc.group, r.desc.artifact, r.desc.version) && !t.rows[c].yanked && t.rows[c].since == now
      && t.semver == s.semver + [SemRow(c, SemVerText.Parse(r.desc.version).value)]
      && (t.rows[c].published
          <==> FullKey(registry, r.desc.group, r.desc.artifact, r.desc.version) in DescriptorKeys(registry, r))
  {
    hide Dir, FullKey, Coord, ProbeKey, Key;
    var d := r.desc;
    ProbeIsFull(registry, d.group, d.artifact, d.version);
    hide ValidGroup, ValidArtifact, Dots, CountersigKey, ShaKey, SemVerText.Parse;
  }

  /** Below 501 characters only the own key counts. */
  lemma ShortKeyIsOwn(registry: string, r: Request, g: string, a: string, v: string)
    requires |Key(registry, r)| <= 500
    ensures FullKey(registry, g, a, v) in DescriptorKeys(registry, r)
      <==> Key(registry, r) == FullKey(registry, g, a, v)
  {
    hide Key;
    var key := Key(registry, r);
    var full, c, h := FullKey(registry, g, a, v), key + ".countersig", key + ".sha256";
    assert full[|full| - 1] == 'a' && c[|c| - 1] == 'g' && h[|h| - 1] == '6';
  }

  /** The own key is the path spelled with the descriptor's coordinate. */
  lemma OwnKey(registry: string, r: Request)
    requires r.desc.Descriptor? && r.filename == "now.pasta" && r.desc.group == Dots(r.dir) && '.' !in r.dir
    requires r.desc.artifact == r.artifact && r.desc.version == r.version
    ensures FullKey(registry, r.desc.group, r.desc.artifact, r.desc.version) == Key(registry, r)
  {
    assert Slashes(Dots(r.dir)) == r.dir;
  }

  /** Some run publishes a row of this coordinate while its now.pasta is not stored. */
  ghost predicate PublishedEarly(registry: string, g: string, a: string, v: string) {
    exists states, events, c ::
      && IsRun(registry, states, events) && c in Last(states).rows
      && Last(states).rows[c].published && Is(Last(states).rows[c], g, a, v)
      && FullKey(registry, g, a, v) !in Last(states).store
  }

  /** In every run a row published without its now.pasta has a key that does not fit, and a probe someone wrote. */
  lemma EarlyNeeds(registry: string, g: string, a: string, v: string)
    requires PublishedEarly(registry, g, a, v)
    ensures ValidDescriptor(Descriptor(g, a, v)) && |FullKey(registry, g, a, v)| > KEY_MAX
    ensures Writable(registry, ProbeKey(registry, g, a, v))
  {
    hide Step, Legal, IsRun, ProbeKey, FullKey, Protected, ValidDescriptor, Writable;
    var states, events, c :|
      && IsRun(registry, states, events) && c in Last(states).rows
      && Last(states).rows[c].published && Is(Last(states).rows[c], g, a, v)
      && FullKey(registry, g, a, v) !in Last(states).store;
    var s := Last(states);
    RunNonempty(registry, states, events);
    RunKeeps(registry, states, events, |states| - 1);
    assert RowInv(registry, s.store, s.semver, c, s.rows[c]);
    ShortGroup(Descriptor(g, a, v));
    ProbeIsFull(registry, g, a, v);
  }

  lemma RunNonempty(registry: string, states: seq<State>, events: seq<Event>)
    requires IsRun(registry, states, events)
    ensures |states| > 0
  {
  }

  lemma ShortGroup(d: Descriptor)
    requires ValidDescriptor(d)
    ensures |d.group| <= 128
  {
  }

  /** An upload that puts the probe into the store, but not the descriptor's own key. */
  ghost predicate Plants(registry: string, q: Request, probe: string, full: string) {
    && Named(q) && Routable(q) && Key(registry, q) != full
    && (Key(registry, q) == probe || CountersigKey(Key(registry, q)) == probe)
    && (|Key(registry, q)| <= KEY_MAX || EndsWith(Key(registry, q), "x"))
  }

  /** Whoever can write the probe can plant it. */
  lemma CanPlant(registry: string, r: Request, g: string, a: string, v: string) returns (q: Request)
    requires |g| <= 255 && |FullKey(registry, g, a, v)| > KEY_MAX && Writes(registry, r, ProbeKey(registry, g, a, v))
    ensures Plants(registry, q, ProbeKey(registry, g, a, v), FullKey(registry, g, a, v))
  {
    hide Routable, Named, ProbeKey, FullKey, Dir;
    var probe, full, key := ProbeKey(registry, g, a, v), FullKey(registry, g, a, v), Key(registry, r);
    ProbeCuts(registry, g, a, v);
    if key == probe {
      q := r;
    } else if |key| > KEY_MAX {
      q := r.(filename := r.filename + "x");
      LongerName(r, q);
      KeyOf(registry, r, "x");
      LastLetters(full, key, "x");
      assert CountersigKey(key + "x") == key[..KEY_MAX] == CountersigKey(key);
    } else if CountersigKey(key) == probe {
      q := r;
    } else {
      var tail := ".sha256"[..KEY_MAX - |key|];
      q := r.(filename := "now.pasta" + tail);
      RoutableSha(r, q, tail);
      KeyOf(registry, r, tail);
      assert probe == key + tail;
    }
  }

  lemma ProbeCuts(registry: string, g: string, a: string, v: string)
    requires |g| <= 255 && |FullKey(registry, g, a, v)| > KEY_MAX
    ensures ProbeKey(registry, g, a, v) == FullKey(registry, g, a, v)[..KEY_MAX]
    ensures var full := FullKey(registry, g, a, v); full[|full| - 1] == 'a'
  {
  }

  lemma LastLetters(full: string, key: string, x: string)
    requires full != "" && full[|full| - 1] == 'a' && x == "x"
    ensures full != key + x && EndsWith(key + x, x)
  {
    var t := key + x;
    assert t[|t| - 1] == 'x' && t[|t| - 1..] == x;
  }

  lemma LongerName(r: Request, q: Request)
    requires Routable(r) && Named(r) && q == r.(filename := r.filename + "x")
    ensures Routable(q) && Named(q)
  {
    hide Routable, ValidGroup, ValidArtifact;
    FileNameOk(r);
    assert '/' !in q.filename by { assert '/' !in r.filename by { NoSlash(r); } }
    RoutableName(r, q);
  }

  lemma NoSlash(r: Request)
    requires Routable(r)
    ensures '/' !in r.filename
  {
  }

  lemma RoutableSha(r: Request, q: Request, tail: string)
    requires Routable(r) && Named(r) && tail <= ".sha256" && q == r.(filename := "now.pasta" + tail)
    ensures Routable(q) && Named(q)
  {
    hide Routable, ValidGroup, ValidArtifact, PathOk;
    ShaName(tail);
    RoutableName(r, q);
  }

  lemma ShaName(tail: string)
    requires tail <= ".sha256"
    ensures PathOk("now.pasta" + tail) && '/' !in "now.pasta" + tail
  {
    var all := "now.pasta.sha256";
    assert "now.pasta" + tail == all[..9 + |tail|];
    assert PathOk(all) && '/' !in all;
  }

  /** The run that plants the probe and then uploads the descriptor far from its own path. */
  lemma PlantedRun(registry: string, q: Request, g: string, a: string, v: string)
    requires ValidDescriptor(Descriptor(g, a, v)) && |FullKey(registry, g, a, v)| > KEY_MAX
    requires Plants(registry, q, ProbeKey(registry, g, a, v), FullKey(registry, g, a, v))
    ensures PublishedEarly(registry, g, a, v)
  {
    hide IsRun, TryPublish, ValidDescriptor, PutStep, Coord, CountersigKey, ShaKey, FullKey, ProbeKey;
    hide Routable, Named, EndsWith, Dir;
    var full, probe := FullKey(registry, g, a, v), ProbeKey(registry, g, a, v);
    var p := FarRequest(|full|, Descriptor(g, a, v));
    var e, f := Put(Upload(q, q.filename, "x", "y"), 0), Put(p, 0);
    var s := Step(registry, Init, e);
    var t := Step(registry, s, f);
    FarKey(registry, p, |full|, Descriptor(g, a, v));
    FarFromPlant(registry, q, p, full);
    UploadStep(registry, Init, q, q.filename, "x", "y");
    UploadRows(registry, q, q.filename);
    assert probe in s.store;
    RegisterPublishes(registry, s, p);
    SamePath(q, e.request);
    TwoEvents(registry, e, f);
    assert Last([Init, s, t]) == t;
    assert full !in t.store;
    assert PublishedEarly(registry, g, a, v);
  }

  /** A descriptor uploaded under a version name longer than n. */
  function FarRequest(n: nat, d: Descriptor): Request {
    Request("b", "b", seq(n + 1, _ => '1'), "now.pasta", "x", true, d, None, "z", "noarch")
  }

  lemma FarKey(registry: string, p: Request, n: nat, d: Descriptor)
    requires p == FarRequest(n, d) && n > KEY_MAX
    ensures Named(p) && Routable(p) && |Key(registry, p)| > n && |ShaKey(Key(registry, p))| == KEY_MAX
    ensures var key := Key(registry, p); key[|key| - 1] == 'a'
  {
    assert Dots("b") == "b";
    var ones := seq(n + 1, _ => '1');
    assert PathOf(p) == "b/b/" + ones + "/now.pasta";
    FarPath(ones);
  }

  lemma FarPath(ones: string)
    requires forall i :: 0 <= i < |ones| ==> ones[i] == '1'
    ensures PathOk("b/b/" + ones + "/now.pasta")
  {
    var p := "b/b/" + ones + "/now.pasta";
    assert forall i :: 4 <= i < 4 + |ones| ==> p[i] == '1';
    assert forall i :: 4 + |ones| <= i < |p| ==> p[i] == "/now.pasta"[i - 4 - |ones|];
  }

  /** The two uploads do not meet, and neither writes the descriptor's own key. */
  lemma FarFromPlant(registry: string, q: Request, p: Request, full: string)
    requires Key(registry, q) != full && |full| > KEY_MAX && |Key(registry, p)| > |full|
    requires var key := Key(registry, p); key[|key| - 1] == 'a'
    requires |Key(registry, q)| <= KEY_MAX || EndsWith(Key(registry, q), "x")
    ensures Key(registry, p) !in {Key(registry, q), CountersigKey(Key(registry, q))}
    ensures full !in {Key(registry, q), CountersigKey(Key(registry, q)), Key(registry, p), ShaKey(Key(registry, p))}
  {
    hide Key;
    var k, j := Key(registry, p), Key(registry, q);
    if EndsWith(j, "x") {
      assert j[|j| - 1..][0] == 'x';
    }
  }

  /**
   * Some run publishes a coordinate without its now.pasta exactly when the coordinate passes the descriptor checks,
   * its key does not fit the probe's buffer, and an upload can write the cut key.
   */
  lemma PublishedEarlyIff(registry: string, g: string, a: string, v: string)
    ensures PublishedEarly(registry, g, a, v) <==>
      && ValidDescriptor(Descriptor(g, a, v)) && |FullKey(registry, g, a, v)| > 511
      && Writable(registry, ProbeKey(registry, g, a, v))
  {
    hide PublishedEarly, FullKey, ProbeKey, Writes, ValidDescriptor;
    if PublishedEarly(registry, g, a, v) {
      EarlyNeeds(registry, g, a, v);
    }
    if ValidDescriptor(Descriptor(g, a, v)) && |FullKey(registry, g, a, v)| > KEY_MAX
        && Writable(registry, ProbeKey(registry, g, a, v)) {
      var r :| Writes(registry, r, ProbeKey(registry, g, a, v));
      ShortGroup(Descriptor(g, a, v));
      var q := CanPlant(registry, r, g, a, v);
      PlantedRun(registry, q, g, a, v);
    }
  }

  /** Every version that is a path segment can be written: then the length alone decides. */
  lemma LongKeyPublishedEarly(registry: string, g: string, a: string, v: string)
    requires ValidDescriptor(Descriptor(g, a, v)) && PathOk(v) && '/' !in v
    ensures PublishedEarly(registry, g, a, v) <==> |FullKey(registry, g, a, v)| > 511
  {
    hide PublishedEarly, FullKey, ProbeKey, Writes, ValidDescriptor;
    PublishedEarlyIff(registry, g, a, v);
    if |FullKey(registry, g, a, v)| > KEY_MAX {
      var r := OwnRequest(registry, g, a, v);
      assert Writable(registry, ProbeKey(registry, g, a, v));
    }
  }

  /** A file beside the descriptor, whose key or countersignature is the cut key. */
  lemma OwnRequest(registry: string, g: string, a: string, v: string) returns (r: Request)
    requires ValidDescriptor(Descriptor(g, a, v)) && PathOk(v) && '/' !in v && |FullKey(registry, g, a, v)| > KEY_MAX
    ensures Writes(registry, r, ProbeKey(registry, g, a, v))
  {
    hide SemVerText.Parse, FullKey, ProbeKey;
    var d := registry + "/" + Slashes(g) + "/" + a + "/" + v + "/";
    ProbeCuts(registry, g, a, v);
    FullIsDir(registry, g, a, v);
    var name := if |d| < KEY_MAX then "now.pasta"[..KEY_MAX - |d|] else "x";
    r := Request(Slashes(g), a, v, name, "x", true, Incomplete, None, "", "");
    assert Dir(registry, r) == d;
    OwnNamed(r, g, a, v);
    if |d| < KEY_MAX {
      assert (d + "now.pasta")[..KEY_MAX] == d + name;
    } else {
      assert (d + "now.pasta")[..KEY_MAX] == d[..KEY_MAX] == (d + name + ".countersig")[..KEY_MAX];
    }
  }

  lemma FullIsDir(registry: string, g: string, a: string, v: string)
    ensures FullKey(registry, g, a, v) == registry + "/" + Slashes(g) + "/" + a + "/" + v + "/" + "now.pasta"
    ensures |FullKey(registry, g, a, v)| > KEY_MAX ==>
      KEY_MAX - |registry + "/" + Slashes(g) + "/" + a + "/" + v + "/"| < 9
  {
  }

  lemma OwnNamed(r: Request, g: string, a: string, v: string)
    requires ValidGroup(g) && ValidArtifact(a) && PathOk(v) && '/' !in v
    requires r.dir == Slashes(g) && r.artifact == a && r.version == v
    requires r.filename <= "now.pasta" || r.filename == "x"
    ensures Named(r) && Routable(r)
  {
    var s, f := Slashes(g), r.filename;
    GroupPath(g);
    NamePaths(a, f);
    hide PathOk, ValidGroup, ValidArtifact, Dots, Slashes;
    JoinOk(a, v);
    JoinOk(a + "/" + v, f);
    JoinOk(s, a + "/" + v + "/" + f);
    assert PathOf(r) == s + "/" + (a + "/" + v + "/" + f);
  }

  lemma GroupPath(g: string)
    requires ValidGroup(g)
    ensures Dots(Slashes(g)) == g && PathOk(Slashes(g))
  {
    assert forall i :: 0 <= i < |g| ==> g[i] != '/';
  }

  lemma NamePaths(a: string, f: string)
    requires ValidArtifact(a) && (f <= "now.pasta" || f == "x")
    ensures PathOk(a) && PathOk(f) && '/' !in a && '/' !in f
  {
  }

  lemma JoinOk(p: string, q: string)
    requires PathOk(p) && PathOk(q)
    ensures PathOk(p + "/" + q)
  {
    var t := p + "/" + q;
    assert forall i :: 0 <= i < |p| ==> t[i] == p[i];
    assert t[|p|] == '/';
    assert forall i :: |p| < i < |t| ==> t[i] == q[i - |p| - 1];
  }

  /** There are such versions: leading zeros are not limited. */
  lemma LongVersion(n: nat)
    ensures var v := seq(n + 1, _ => '0') + ".0.0"; |v| == n + 5 && SemVerText.Parse(v).Some?
  {
    hide SemVerText.Parse;
    var zeros := seq(n + 1, _ => '0');
    var s := zeros + ".0.0";
    var v := SemVer.Version(SemVerText.Number(zeros), SemVerText.Number("0"), SemVerText.Number("0"), "", "");
    assert s == zeros + "." + ("0" + "." + ("0" + ""));
    assert SemVerText.Text3(s, zeros, "0", "0", "") && SemVerText.Tail("", "", "");
    assert SemVerText.Reads(s, v);
    SemVerText.ParseExact(s, v);
  }

  lemma UploadRows(registry: string, r: Request, fn: string)
    ensures PutStep(registry, Init, Upload(r, fn, "x", "y"), 0).rows == map[]
  {
    hide Buffer.Cut, Dots, ValidGroup, ValidArtifact, ProbeKey, CountersigKey, Key, PutStore, SemVerText.Parse;
  }

  /** A registered descriptor whose probe finds something is published. */
  lemma RegisterPublishes(registry: string, s: State, r: Request)
    requires Storable(registry, s, r) && Registers(r) && r.signature.None? && s.rows == map[]
    requires ProbeKey(registry, r.desc.group, r.desc.artifact, r.desc.version) in s.store
    ensures var t := PutStep(registry, s, r, 0); var c := Coord(r.desc, r.triple);
      && c in t.rows && t.rows[c].published && Is(t.rows[c], r.desc.group, r.desc.artifact, r.desc.version)
      && t.store == s.store[Key(registry, r) := r.body][ShaKey(Key(registry, r)) := r.digest]
  {
    hide ValidGroup, ValidArtifact, Dots, ProbeKey, Key, Coord, ShaKey, SemVerText.Parse;
  }

  // ---- what the steps do ----

  /** A yank marks exactly the rows of its coordinate, and changes nothing else of them. */
  lemma YankMarks(registry: string, s: State, g: string, a: string, v: string)
    ensures var t := Step(registry, s, Yank(g, a, v));
      && t.rows.Keys == s.rows.Keys
      && forall c :: c in s.rows ==> t.rows[c] == s.rows[c].(yanked := s.rows[c].yanked || Is(s.rows[c], g, a, v))
  {
  }

  /** In every run, what is yanked while it is published is yanked ever after. */
  lemma YankSticks(registry: string, states: seq<State>, events: seq<Event>, j: nat, k: nat, c: string)
    requires IsRun(registry, states, events) && j < |events| && j < k < |states| && events[j].Yank?
    requires c in states[j].rows && states[j].rows[c].published
    requires Is(states[j].rows[c], events[j].group, events[j].artifact, events[j].version)
    ensures c in states[k].rows && states[k].rows[c].published && states[k].rows[c].yanked
  {
    hide Legal;
    assert states[j + 1] == Step(registry, states[j], events[j]);
    YankMarks(registry, states[j], events[j].group, events[j].artifact, events[j].version);
    hide Step, IsRun;
    PublishedForever(registry, states, events, j + 1, k, c);
  }

  /**
   * An accepted upload leaves its digest and its countersignature beside its bytes. Only a key of exactly the
   * buffer's length loses its bytes to them, and only one character below that do the two fall together.
   */
  lemma UploadLeaves(registry: string, s: State, r: Request, now: int)
    requires Storable(registry, s, r) && !Deleted(r)
    ensures var t := PutStep(registry, s, r, now); var key := Key(registry, r);
      && t.accepted == s.accepted[key := r.body] && key in t.store
      && (|key| != KEY_MAX || (r.signature.None? && !Registers(r)) ==> t.store[key] == r.body)
      && (Registers(r) ==> ShaKey(key) in t.store && t.store[ShaKey(key)] == r.digest)
      && (r.signature.Some? && (|key| < KEY_MAX - 1 || !Registers(r)) ==>
            CountersigKey(key) in t.store && t.store[CountersigKey(key)] == r.signature.value)
      && (r.filename == "now.pasta" && r.desc.Descriptor? && |key| <= 500 ==>
            key + ".sha256" in t.store && t.store[key + ".sha256"] == r.digest)
      && (r.signature.Some? && |key| <= 500 ==>
            key + ".countersig" in t.store && t.store[key + ".countersig"] == r.signature.value)
  {
    hide Key, ValidGroup, ValidArtifact, Dots, SemVerText.Parse, PutRows, PutSemver, Storable;
    var key := Key(registry, r);
    SidecarsApart(key);
    assert |key| <= 500 ==> ShaKey(key) == key + ".sha256" && CountersigKey(key) == key + ".countersig";
    hide CountersigKey, ShaKey;
  }

  lemma SidecarsApart(key: string)
    ensures CountersigKey(key) == key ==> |key| == KEY_MAX
    ensures ShaKey(key) == key ==> |key| == KEY_MAX
    ensures |key| < KEY_MAX - 1 <==> CountersigKey(key) != ShaKey(key)
  {
    if |key| < KEY_MAX - 1 {
      assert CountersigKey(key)[|key| + 1] == 'c' && ShaKey(key)[|key| + 1] == 's';
    } else {
      assert (key + ".countersig")[..KEY_MAX] == (key + ".")[..KEY_MAX] == (key + ".sha256")[..KEY_MAX];
    }
  }

  /** Any other file publishes the pending rows of its path's coordinate, once their now.pasta is in the store. */
  lemma LaterUpload(registry: string, s: State, r: Request, now: int)
    requires Storable(registry, s, r) && r.filename != "now.pasta"
    ensures var g, t := Dots(r.dir), PutStep(registry, s, r, now);
      var pasta := registry + "/" + Slashes(g) + "/" + r.artifact + "/" + r.version + "/now.pasta";
      && t.rows.Keys == s.rows.Keys && t.semver == s.semver
      && (|pasta| <= 511 ==> forall c :: c in s.rows ==>
        var row := s.rows[c];
        var here := row.group == g && row.artifact == r.artifact && row.version == r.version && pasta in t.store;
        t.rows[c] == row.(published := row.published || here))
  {
    hide PutStore, SemVerText.Parse, Key, ValidArtifact, NameChar, Dots, Slashes;
    ProbeIsFull(registry, Dots(r.dir), r.artifact, r.version);
    hide ProbeKey;
  }

  /** The names of keys and coordinates, as far as they fit. */
  lemma Spelled(registry: string, r: Request, d: Descriptor, triple: string)
    requires d.Descriptor?
    ensures Key(registry, r) == registry + "/" + r.dir + "/" + r.artifact + "/" + r.version + "/" + r.filename
    ensures var c := d.group + ":" + d.artifact + ":" + d.version + ":" + triple;
      Coord(d, triple) == if |c| <= 255 then c else c[..255]
    ensures FullKey(registry, d.group, d.artifact, d.version)
         == registry + "/" + Slashes(d.group) + "/" + d.artifact + "/" + d.version + "/now.pasta"
    ensures Slashes("com.example") == "com/example" && Dots("com/example") == "com.example"
  {
  }

  /** A refused upload leaves no trace under its key, and the tables as they were. */
  lemma RefusalLeaves(registry: string, s: State, r: Request, now: int)
    requires !Storable(registry, s, r) || Deleted(r)
    ensures var t := PutStep(registry, s, r, now);
      && t.rows == s.rows && t.semver == s.semver && t.accepted == s.accepted
      && (Key(registry, r) in t.store <==> Key(registry, r) in s.store)
  {
    hide Key, ValidGroup, ValidArtifact, Dots, SemVerText.Parse, TryPublish, CountersigKey, ShaKey;
  }

  // ---- what is accepted has been checked ----

  /** Bytes of an upload that passed every check. */
  ghost predicate Came(registry: string, r: Request, k: string, body: string) {
    Routable(r) && Named(r) && Sound(r) && Key(registry, r) == k && r.body == body != ""
  }

  ghost predicate Checked(registry: string, s: State) {
    forall k :: k in s.accepted ==> exists r :: Came(registry, r, k, s.accepted[k])
  }

  lemma PutChecked(registry: string, s: State, r: Request, now: int)
    requires Checked(registry, s) && Routable(r)
    ensures Checked(registry, PutStep(registry, s, r, now))
  {
    hide Routable, Named, Sound, Key, PutStore, PutRows, PutSemver, Deleted;
    var t := PutStep(registry, s, r, now);
    forall k | k in t.accepted
      ensures exists q :: Came(registry, q, k, t.accepted[k])
    {
      if k in s.accepted && t.accepted[k] == s.accepted[k] {
        var q :| Came(registry, q, k, s.accepted[k]);
        assert Came(registry, q, k, t.accepted[k]);
      } else {
        assert Came(registry, r, k, t.accepted[k]);
      }
    }
  }

  lemma {:induction false} SweepAccepted(s: State, stale: seq<string>)
    ensures Sweep(s, stale).accepted == s.accepted
  {
    if stale != [] {
      SweepAccepted(s, stale[..|stale| - 1]);
    }
  }

  lemma {:induction false} RunChecked(registry: string, states: seq<State>, events: seq<Event>, k: nat)
    requires IsRun(registry, states, events) && k < |states|
    ensures Checked(registry, states[k])
  {
    hide Checked, PutStep, YankRows, Sweep, Routable;
    if k == 0 {
      NothingAccepted(registry);
    } else {
      RunChecked(registry, states, events, k - 1);
      var s, e := states[k - 1], events[k - 1];
      assert Legal(s, e) && states[k - 1 + 1] == Step(registry, s, e);
      match e
      case Put(r, now) => PutChecked(registry, s, r, now);
      case Yank(g, a, v) => SameAccepted(registry, s, states[k]);
      case Reconcile(stale, cutoff) =>
        SweepAccepted(s, stale);
        SameAccepted(registry, s, states[k]);
    }
  }

  lemma NothingAccepted(registry: string)
    ensures Checked(registry, Init)
  {
  }

  lemma SameAccepted(registry: string, s: State, t: State)
    requires Checked(registry, s) && t.accepted == s.accepted
    ensures Checked(registry, t)
  {
    hide Came;
  }

  /** No occurrence of two dots in a row. */
  lemma NoTwoDots(s: string)
    ensures (forall i :: 0 < i < |s| ==> !(s[i - 1] == '.' && s[i] == '.')) <==> forall p, q :: s != p + ".." + q
  {
    if exists i :: 0 < i < |s| && s[i - 1] == '.' && s[i] == '.' {
      var i :| 0 < i < |s| && s[i - 1] == '.' && s[i] == '.';
      assert s == s[..i - 1] + ".." + s[i + 1..];
    }
    forall p, q | s == p + ".." + q
      ensures exists i :: 0 < i < |s| && s[i - 1] == '.' && s[i] == '.'
    {
      assert s[|p|] == '.' && s[|p| + 1] == '.';
    }
  }

  /** validate_group and validate_artifact: the length, the characters, and single dots in groups. */
  lemma NameRules(g: string, a: string)
    ensures ValidGroup(g) <==>
      && 0 < |g| <= 128 && (forall p, q :: g != p + ".." + q)
      && forall c :: c in g ==> c == '.' || c == '-' || c == '_' || 'a' <= c <= 'z' || '0' <= c <= '9'
    ensures ValidArtifact(a) <==>
      0 < |a| <= 64 && forall c :: c in a ==> c == '-' || c == '_' || 'a' <= c <= 'z' || '0' <= c <= '9'
  {
    NoTwoDots(g);
    assert (forall i :: 0 <= i < |g| ==> NameChar(g[i]) || g[i] == '.')
      <==> forall c :: c in g ==> c == '.' || NameChar(c);
    assert (forall i :: 0 <= i < |a| ==> NameChar(a[i])) <==> forall c :: c in a ==> NameChar(c);
  }

  /**
   * In every run an accepted body was uploaded under registry/group/artifact/version/file with a good group and
   * artifact, is not empty, and is ASCII when the file is a now.pasta or has the name of a .repro file.
   */
  lemma AcceptedChecked(registry: string, states: seq<State>, events: seq<Event>, k: nat, key: string)
    returns (dir: string, artifact: string, version: string, file: string)
    requires IsRun(registry, states, events) && k < |states| && key in states[k].accepted
    ensures key == registry + "/" + dir + "/" + artifact + "/" + version + "/" + file
    ensures '/' !in artifact && '/' !in version && '/' !in file
    ensures 0 < |dir| <= 128 && forall c :: c in dir ==>
      c == '.' || c == '/' || c == '-' || c == '_' || 'a' <= c <= 'z' || '0' <= c <= '9'
    ensures 0 < |artifact| <= 64 && forall c :: c in artifact ==>
      c == '-' || c == '_' || 'a' <= c <= 'z' || '0' <= c <= '9'
    ensures var body := states[k].accepted[key];
      && body != ""
      && (file == "now.pasta" || (|file| > 6 && file[|file| - 6..] == ".repro") ==>
        forall c :: c in body ==> 0 < c as int < 128)
  {
    hide Checked, IsRun, ValidGroup, ValidArtifact, Dots, PathOk;
    RunChecked(registry, states, events, k);
    var r := Origin(registry, states[k], key);
    dir, artifact, version, file := r.dir, r.artifact, r.version, r.filename;
    NameRules(Dots(dir), artifact);
    DotsChars(dir);
  }

  lemma Origin(registry: string, s: State, key: string) returns (r: Request)
    requires Checked(registry, s) && key in s.accepted
    ensures Came(registry, r, key, s.accepted[key])
  {
    hide Came;
    r :| Came(registry, r, key, s.accepted[key]);
  }

  lemma DotsChars(dir: string)
    ensures forall c :: c in dir ==> c == '/' || c in Dots(dir)
  {
    forall c | c in dir
      ensures c == '/' || c in Dots(dir)
    {
      var i :| 0 <= i < |dir| && dir[i] == c;
      assert c == '/' || Dots(dir)[i] == c;
    }
  }

  /** validate_ascii: 0, or one more than the offset of the first byte that is not ASCII. */
  method ValidateAscii(data: string) returns (bad: nat)
    ensures bad == 0 <==> Ascii(data)
    ensures bad > 0 ==> bad <= |data| && Ascii(data[..bad - 1]) && !(0 < data[bad - 1] as int < 128)
  {
    for i := 0 to |data|
      invariant Ascii(data[..i])
    {
      var c := data[i] as int;
      if c == 0 || c > 0x7f {
        assert data[i] in data;
        return i + 1;
      }
      assert data[..i + 1] == data[..i] + [data[i]];
    }
    assert data[..|data|] == data;
    return 0;
  }

  // ---- the handlers refine the state machine ----

  class Server {
    const registry: string
    var store: Store
    var rows: Rows
    var semver: seq<SemRow>
    ghost var accepted: Store

    ghost function View(): State
      reads this
    {
      State(store, rows, semver, accepted)
    }

    constructor (id: string)
      ensures registry == id && View() == Init
    {
      registry, store, rows, semver, accepted := id, map[], map[], [], map[];
    }

    /** try_publish */
    method Try(g: string, a: string, v: string)
      modifies this`rows
      ensures rows == TryPublish(registry, store, old(rows), g, a, v)
    {
      if ProbeKey(registry, g, a, v) !in store {
        return;
      }
      rows := Publish(rows, g, a, v);
    }

    /**
     * The PUT part of handle_artifact. 409 answers a good name whose key is taken; 201 a good name with a free key
     * and a body that passes every check; everything else is 400.
     */
    method HandlePut(r: Request, now: int) returns (status: int)
      modifies this
      ensures View() == Step(registry, old(View()), Put(r, now))
      ensures status == 201 || status == 400 || status == 409
      ensures status == 409 <==>
        ValidGroup(Dots(r.dir)) && ValidArtifact(r.artifact) && Key(registry, r) in old(store)
      ensures
        || status == 409 || r.body == "" || !ValidGroup(Dots(r.dir)) || !ValidArtifact(r.artifact)
        || (r.filename == "now.pasta" && exists c :: c in r.body && !(0 < c as int < 128))
        || (IsRepro(r.filename) && (!r.attested || exists c :: c in r.body && !(0 < c as int < 128)))
        ==> status != 201 && View() == old(View())
      ensures status == 201 <==>
        && ValidGroup(Dots(r.dir)) && ValidArtifact(r.artifact) && Key(registry, r) !in old(store) && r.body != ""
        && (r.filename == "now.pasta" || IsRepro(r.filename) ==> forall c :: c in r.body ==> 0 < c as int < 128)
        && (IsRepro(r.filename) ==> r.attested)
        && (r.filename == "now.pasta" ==> !r.desc.Unparsable? && (r.desc.Descriptor? ==>
              && SemVerText.Parse(r.desc.version).Some?
              && ValidGroup(r.desc.group) && ValidArtifact(r.desc.artifact)))
    {
      hide ValidGroup, ValidArtifact, Key, PutStore, PutRows, PutSemver, Dots, SemVerText.Parse, IsRepro;
      if !ValidGroup(Dots(r.dir)) || !ValidArtifact(r.artifact) {
        return 400;
      }
      if Key(registry, r) in store {
        return 409;
      }
      if r.body == "" {
        return 400;
      }
      var sound := CheckBody(r);
      if !sound {
        return 400;
      }
      status := StoreBody(r, now);
    }

    /** The store, the sidecars, the descriptor and the publication of a body that passed the checks. */
    method StoreBody(r: Request, now: int) returns (status: int)
      requires Storable(registry, View(), r)
      modifies this
      ensures View() == PutStep(registry, old(View()), r, now)
      ensures status == if Deleted(r) then 400 else 201
    {
      hide Storable, ValidGroup, ValidArtifact, Key, CountersigKey, ShaKey, TryPublish, Coord, Dots, SemVerText.Parse;
      var key := Key(registry, r);
      store := store[key := r.body];
      if r.signature.Some? {
        store := store[CountersigKey(key) := r.signature.value];
      }
      if r.filename == "now.pasta" {
        if r.desc.Unparsable? {
          store := store - {key};
          return 400;
        }
        if r.desc.Descriptor? {
          if !ValidDescriptor(r.desc) {
            store := store - {key};
            return 400;
          }
          store := store[ShaKey(key) := r.digest];
          var c := Coord(r.desc, r.triple);
          if c !in rows {
            rows := rows[c := Row(r.desc.group, r.desc.artifact, r.desc.version, false, false, now)];
          }
          semver := semver + [SemRow(c, SemVerText.Parse(r.desc.version).value)];
          Try(r.desc.group, r.desc.artifact, r.desc.version);
        }
      } else {
        Try(Dots(r.dir), r.artifact, r.version);
      }
      accepted := accepted[key := r.body];
      return 201;
    }

    /** The checks on a descriptor and on an attestation before anything is stored. */
    method CheckBody(r: Request) returns (ok: bool)
      ensures ok == Sound(r)
    {
      hide IsRepro, Ascii;
      if r.filename == "now.pasta" {
        var bad := ValidateAscii(r.body);
        if bad != 0 {
          return false;
        }
      }
      if IsRepro(r.filename) {
        var bad := ValidateAscii(r.body);
        return bad == 0 && r.attested;
      }
      return true;
    }

    /** The update of a yank request. */
    method HandleYank(g: string, a: string, v: string)
      modifies this`rows
      ensures View() == Step(registry, old(View()), Yank(g, a, v))
    {
      rows := YankRows(rows, g, a, v);
    }

    /** The delete loop of reconcile_stale_pending. */
    method ReconcileStale(stale: seq<string>, cutoff: int)
      modifies this`rows, this`semver
      ensures View() == Step(registry, old(View()), Reconcile(stale, cutoff))
    {
      ghost var was := View();
      var i := 0;
      while i < |stale|
        invariant i <= |stale| && View() == Sweep(was, stale[..i])
      {
        assert stale[..i + 1][..i] == stale[..i];
        semver := DropSemver(semver, stale[i]);
        rows := DropPending(rows, stale[i]);
        i := i + 1;
      }
      assert stale[..i] == stale;
    }
  }
}
