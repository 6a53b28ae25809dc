/**
 The activation engine of the static-layout host firmware updater. The host
 flash holds one image; at start-up the updater reads its version, derives
 the image's id, and registers one activation record and one version record
 under that id, marking it functional. The records are kept in two maps
 keyed by id, next to the id of the functional image and the updater's own
 association edges.
 */
module ItemUpdaterStatic {
  import opened Wrappers
  import opened FlashTool
  import VersionBlob
  import KeyOrder
  import opened Associations

  datatype ActivationState = Active | Invalid

  datatype VersionPurpose = Host

  /** The width of the redundancy priority property. */
  type Priority = x: int | 0 <= x < 256

  /** One activation object: its id, object path, extended version,
      activation state, own associations and optional redundancy priority. */
  datatype Activation = Activation(
    versionId: string,
    path: ObjectPath,
    extendedVersion: string,
    state: ActivationState,
    associations: seq<Association>,
    redundancyPriority: Option<Priority>)

  /** One version object; `deletable` records that a delete interface bound
      to the updater's erase is attached. */
  datatype VersionRecord = VersionRecord(
    versionId: string,
    path: ObjectPath,
    version: string,
    purpose: VersionPurpose,
    filePath: string,
    deletable: bool)

  /** The state of the updater. */
  datatype Updater = Updater(
    activations: map<string, Activation>,
    versions: map<string, VersionRecord>,
    functionalVersionId: string,
    assocs: seq<Association>)

  /** The version-string collaborators: splitting the full version into
      (version, extended version), and deriving an image id from a version.
      Their definitions are not part of this model; any functions may be
      given. */
  datatype VersionParser = VersionParser(
    getVersions: string -> (string, string),
    getId: string -> string)

  /** The updater before any image is processed. */
  function Initial(): Updater
  {
    Updater(map[], map[], [], [])
  }

  /** The id an image with this full version string gets. */
  function IdOf(vp: VersionParser, fullVersion: string): string
  {
    vp.getId(vp.getVersions(fullVersion).0)
  }

  /** Both parts of the full version string are present. */
  predicate Complete(vp: VersionParser, fullVersion: string)
  {
    vp.getVersions(fullVersion).0 != [] && vp.getVersions(fullVersion).1 != []
  }

  /** `std::map::insert`: a key already present keeps its value. */
  function MapInsert<K, V>(m: map<K, V>, k: K, v: V): (r: map<K, V>)
    ensures r.Keys == m.Keys + {k}
    ensures k in m ==> r[k] == m[k]
    ensures k !in m ==> r[k] == v
    ensures forall k2 :: k2 in m && k2 != k ==> r[k2] == m[k2]
  {
    if k in m then m else m[k := v]
  }

  /** Whether `versionId` is the functional image. Once the updater has
      published its functional edge, the answer agrees with that edge. */
  function IsVersionFunctional(u: Updater, versionId: string): (r: bool)
    ensures FunctionalEdge(u) && Edges(u.assocs, true) != [] ==>
      (r <==> Edges(u.assocs, true) == [Association(Functional, SoftwareObject(versionId))])
  {
    versionId == u.functionalVersionId
  }

  /** Records `versionId` as the functional image and moves the updater's
      single functional edge to its object; the records and every other
      edge stay as they are. */
  function UpdateFunctionalAssociation(u: Updater, versionId: string): (u': Updater)
    ensures forall x :: IsVersionFunctional(u', x) <==> x == versionId
    ensures u'.activations == u.activations && u'.versions == u.versions
    ensures Edges(u'.assocs, true) == [Association(Functional, SoftwareObject(versionId))]
    ensures Edges(u'.assocs, false) == Edges(u.assocs, false)
  {
    var edge := Association(Functional, SoftwareObject(versionId));
    var kept := Edges(u.assocs, false);
    EdgesAppend(kept, [edge], true);
    EdgesAppend(kept, [edge], false);
    EdgesOfUniform(kept, false);
    EdgesOfUniform([edge], true);
    u.(functionalVersionId := versionId, assocs := kept + [edge])
  }

  /** The activation state the parse results give. */
  function StateFor(version: string, extendedVersion: string): ActivationState
  {
    if version == [] || extendedVersion == [] then Invalid else Active
  }

  /** Inserting the activation of image `id` and, when it is active, giving
      the activation now under `id` redundancy priority 0. */
  function AddActivation(acts: map<string, Activation>, id: string, extendedVersion: string,
                         state: ActivationState): (r: map<string, Activation>)
    ensures r.Keys == acts.Keys + {id}
    ensures forall k :: k in acts && k != id ==> r[k] == acts[k]
    ensures id !in acts ==>
      && r[id].versionId == id
      && r[id].path == SoftwareObject(id)
      && r[id].extendedVersion == extendedVersion
      && r[id].state == state
      && (r[id].redundancyPriority == Some(0) <==> state == Active)
      && (r[id].redundancyPriority.None? <==> state != Active)
      && r[id].associations == (if state == Active then [Association(Inventory, HostInventory)] else [])
    ensures id in acts ==>
      && r[id].(redundancyPriority := acts[id].redundancyPriority) == acts[id]
      && (state == Active ==> r[id].redundancyPriority == Some(0))
      && (state != Active ==> r[id] == acts[id])
  {
    var path := SoftwareObject(id);
    var associations := if state == Active then [Association(Inventory, HostInventory)] else [];
    var inserted := MapInsert(acts, id, Activation(id, path, extendedVersion, state, associations, None));
    if state == Active then inserted[id := inserted[id].(redundancyPriority := Some(0))] else inserted
  }

  /** The updater edges registering an image adds before the functional
      one: the active edge for an active image, then the updateable edge. */
  function ImageEdges(id: string, state: ActivationState): (r: seq<Association>)
    ensures Edges(r, true) == []
    ensures Edges(r, false) == r
  {
    var r := (if state == Active then [Association(ActiveImage, SoftwareObject(id))] else [])
             + [Association(Updateable, SoftwareObject(id))];
    EdgesOfUniform(r, false);
    r
  }

  /** Registering the image with this full version string: nothing when its
      id is empty; otherwise an activation and a version record under the id
      (an id already present keeps its records, as `std::map::insert` does,
      though a complete version still gives the kept activation priority 0),
      the active edge for a complete version, the updateable edge in every
      case, and the id as the functional image. */
  function ProcessVersion(u: Updater, fullVersion: string, vp: VersionParser): (u': Updater)
    ensures IdOf(vp, fullVersion) == [] ==> u' == u
    ensures IdOf(vp, fullVersion) != [] ==> u'.functionalVersionId == IdOf(vp, fullVersion)
    ensures u'.activations.Keys == u.activations.Keys + (if IdOf(vp, fullVersion) == [] then {} else {IdOf(vp, fullVersion)})
    ensures u'.versions.Keys == u.versions.Keys + (if IdOf(vp, fullVersion) == [] then {} else {IdOf(vp, fullVersion)})
    ensures forall k :: k in u.activations && k != IdOf(vp, fullVersion) ==> u'.activations[k] == u.activations[k]
    ensures forall k :: k in u.versions && k != IdOf(vp, fullVersion) ==> u'.versions[k] == u.versions[k]
  {
    var (version, extendedVersion) := vp.getVersions(fullVersion);
    var id := vp.getId(version);
    if id == [] then u
    else
      var state := StateFor(version, extendedVersion);
      var added := ImageEdges(id, state);
      var acts := AddActivation(u.activations, id, extendedVersion, state);
      var vers := MapInsert(u.versions, id, VersionRecord(id, SoftwareObject(id), version, Host, [], true));
      EdgesAppend(u.assocs, added, false);
      UpdateFunctionalAssociation(Updater(acts, vers, u.functionalVersionId, u.assocs + added), id)
  }

  /** The activation registering an image leaves under its id: a fresh one
      filed under the id, with the extended version, active with priority 0
      and the host inventory link exactly when the version is complete; an
      existing one kept, except that a complete version gives it priority
      0. */
  lemma RegistersActivation(u: Updater, fullVersion: string, vp: VersionParser)
    requires IdOf(vp, fullVersion) != []
    ensures var id, a := IdOf(vp, fullVersion), ProcessVersion(u, fullVersion, vp).activations;
      id !in u.activations ==>
        && a[id].versionId == id
        && a[id].path == SoftwareObject(id)
        && a[id].extendedVersion == vp.getVersions(fullVersion).1
        && (a[id].state == Active <==> Complete(vp, fullVersion))
        && (a[id].redundancyPriority == Some(0) <==> Complete(vp, fullVersion))
        && (a[id].redundancyPriority.None? <==> !Complete(vp, fullVersion))
        && a[id].associations
             == (if Complete(vp, fullVersion) then [Association(Inventory, HostInventory)] else [])
    ensures var id, a := IdOf(vp, fullVersion), ProcessVersion(u, fullVersion, vp).activations;
      id in u.activations ==>
        && a[id].(redundancyPriority := u.activations[id].redundancyPriority) == u.activations[id]
        && (Complete(vp, fullVersion) ==> a[id].redundancyPriority == Some(0))
        && (!Complete(vp, fullVersion) ==> a[id] == u.activations[id])
  {
  }

  /** The version record registering an image leaves under its id: a fresh
      one filed under the id with the version part, for the host, with no
      file path and deletable; an existing one kept as it was. */
  lemma RegistersVersion(u: Updater, fullVersion: string, vp: VersionParser)
    requires IdOf(vp, fullVersion) != []
    ensures var id, vs := IdOf(vp, fullVersion), ProcessVersion(u, fullVersion, vp).versions;
      && (id !in u.versions ==>
            vs[id] == VersionRecord(id, SoftwareObject(id), vp.getVersions(fullVersion).0, Host, [], true))
      && (id in u.versions ==> vs[id] == u.versions[id])
  {
  }

  /** The updater's edges after registering an image: the one functional
      edge points at it, and the other edges gain its active edge (for a
      complete version) and its updateable edge, in that order. */
  lemma RegistersEdges(u: Updater, fullVersion: string, vp: VersionParser)
    requires IdOf(vp, fullVersion) != []
    ensures var id, e := IdOf(vp, fullVersion), ProcessVersion(u, fullVersion, vp).assocs;
      && Edges(e, true) == [Association(Functional, SoftwareObject(id))]
      && Edges(e, false)
           == Edges(u.assocs, false)
              + (if Complete(vp, fullVersion) then [Association(ActiveImage, SoftwareObject(id))] else [])
              + [Association(Updateable, SoftwareObject(id))]
  {
    var (version, extendedVersion) := vp.getVersions(fullVersion);
    var id := IdOf(vp, fullVersion);
    var state := StateFor(version, extendedVersion);
    var added := ImageEdges(id, state);
    var mid := Updater(AddActivation(u.activations, id, extendedVersion, state),
                       MapInsert(u.versions, id, VersionRecord(id, SoftwareObject(id), version, Host, [], true)),
                       u.functionalVersionId, u.assocs + added);
    assert ProcessVersion(u, fullVersion, vp) == UpdateFunctionalAssociation(mid, id);
    EdgesAppend(u.assocs, added, false);
  }

  /** Processing the image on the host flash: read its version, then
      register it. A failed read registers what an empty version string
      gives. */
  function ProcessPnorImage(u: Updater, p: Platform, vp: VersionParser): (u': Updater)
    ensures !p.tmpDirCreated || p.pflash(ReadVersion).rc != 0 ==>
      u' == ProcessVersion(u, [], vp)
    ensures p.tmpDirCreated && p.pflash(ReadVersion).rc == 0 ==>
      u' == ProcessVersion(u, ToText(VersionBlob.DecodeVersion(p.versionFile)), vp)
  {
    var text := GetPnorVersion(p).text;
    assert p.tmpDirCreated && p.pflash(ReadVersion).rc == 0 ==>
      text == ToText(VersionBlob.DecodeVersion(p.versionFile));
    ProcessVersion(u, text, vp)
  }

  /** The updater's erase of an image, whose definition is not part of this
      model: when it goes ahead the image's activation and version records
      are gone and nothing else changes; `allowed` stands for its own
      refusal policy. */
  function Erase(u: Updater, versionId: string, allowed: bool): (r: (bool, Updater))
    ensures r.0 == allowed
    ensures allowed ==> r.1.activations.Keys == u.activations.Keys - {versionId}
    ensures allowed ==> r.1.versions.Keys == u.versions.Keys - {versionId}
    ensures forall k :: k in r.1.activations ==> k in u.activations && r.1.activations[k] == u.activations[k]
    ensures forall k :: k in r.1.versions ==> k in u.versions && r.1.versions[k] == u.versions[k]
    ensures r.1.functionalVersionId == u.functionalVersionId && r.1.assocs == u.assocs
    ensures !allowed ==> r.1 == u
  {
    if allowed then
      (true, u.(activations := u.activations - {versionId}, versions := u.versions - {versionId}))
    else (false, u)
  }

  /** No activation is active. */
  predicate NoneActive(acts: map<string, Activation>)
  {
    forall k :: k in acts ==> acts[k].state != Active
  }

  /** `k` is the first active activation in key order: the one a scan of
      the map from its smallest key meets first. */
  ghost predicate FirstActive(acts: map<string, Activation>, k: string)
  {
    && k in acts
    && acts[k].state == Active
    && forall k2 :: k2 in acts && acts[k2].state == Active ==> !KeyOrder.Less(k2, k)
  }

  /** Two first active keys are the same key. */
  lemma FirstActiveUnique(acts: map<string, Activation>, a: string, b: string)
    requires FirstActive(acts, a) && FirstActive(acts, b)
    ensures a == b
  {
    KeyOrder.LessTotal(a, b);
  }

  /** The scan of the activations map for the first active one. */
  method FindFirstActive(acts: map<string, Activation>) returns (r: Option<string>)
    ensures r.None? <==> NoneActive(acts)
    ensures r.Some? ==> FirstActive(acts, r.value)
  {
    var rest := acts.Keys;
    r := None;
    while rest != {}
      invariant rest <= acts.Keys
      invariant r.None? ==> forall k :: k in acts && k !in rest ==> acts[k].state != Active
      invariant r.Some? ==> r.value in acts && r.value !in rest && acts[r.value].state == Active
      invariant r.Some? ==> forall k :: k in acts && k !in rest && acts[k].state == Active ==>
        !KeyOrder.Less(k, r.value)
      decreases rest
    {
      var k :| k in rest;
      if acts[k].state == Active && (r.None? || KeyOrder.Less(k, r.value)) {
        KeyOrder.LessIrreflexive(k);
        if r.Some? {
          var old_min := r.value;
          forall k2 | k2 in acts && k2 !in rest && acts[k2].state == Active
            ensures !KeyOrder.Less(k2, k)
          {
            if KeyOrder.Less(k2, k) {
              KeyOrder.LessTransitive(k2, k, old_min);
            }
          }
        }
        r := Some(k);
      }
      rest := rest - {k};
    }
  }

  /** Making room for a new image: erase the first active image, or succeed
      at once when none is active (the flash is empty or corrupted). */
  method FreeSpace(u: Updater, eraseAllowed: bool) returns (ok: bool, erased: Option<string>, u': Updater)
    ensures NoneActive(u.activations) ==> ok && erased.None? && u' == u
    ensures !NoneActive(u.activations) ==>
      exists k :: FirstActive(u.activations, k) && erased == Some(u.activations[k].versionId)
    ensures erased.Some? ==> (ok, u') == Erase(u, erased.value, eraseAllowed)
  {
    var first := FindFirstActive(u.activations);
    match first
    case None =>
      ok, erased, u' := true, None, u;
    case Some(k) =>
      erased := Some(u.activations[k].versionId);
      var r := Erase(u, u.activations[k].versionId, eraseAllowed);
      ok, u' := r.0, r.1;
  }

  /** A single-image layout has no priorities to rebalance. */
  function FreePriority(u: Updater, value: Priority, versionId: string): (u': Updater)
    ensures u' == u
  {
    u
  }

  /** A single-image layout holds nothing to delete in bulk. */
  function DeleteAll(u: Updater): (u': Updater)
    ensures u' == u
  {
    u
  }

  /** A static-layout image needs no validation. */
  function ValidateImage(path: string): (valid: bool)
    ensures valid
  {
    true
  }

  /** Activations and version records come in pairs, each filed under its
      own id and path. */
  ghost predicate Filed(u: Updater)
  {
    && u.activations.Keys == u.versions.Keys
    && (forall id :: id in u.activations ==>
          u.activations[id].versionId == id && u.activations[id].path == SoftwareObject(id))
    && (forall id :: id in u.versions ==>
          u.versions[id].versionId == id && u.versions[id].path == SoftwareObject(id))
  }

  /** Every active image has priority 0 and its host inventory link. */
  ghost predicate ActiveReady(acts: map<string, Activation>)
  {
    forall id :: id in acts && acts[id].state == Active ==>
      && acts[id].redundancyPriority == Some(0)
      && Association(Inventory, HostInventory) in acts[id].associations
  }

  /** At most one functional edge, and it points at the functional image. */
  predicate FunctionalEdge(u: Updater)
  {
    || Edges(u.assocs, true) == []
    || Edges(u.assocs, true) == [Association(Functional, SoftwareObject(u.functionalVersionId))]
  }

  /** The invariant every reachable updater state keeps. */
  ghost predicate WellFormed(u: Updater)
  {
    Filed(u) && ActiveReady(u.activations) && FunctionalEdge(u)
  }

  lemma InitialWellFormed()
    ensures WellFormed(Initial())
  {
  }

  /** Registering an image keeps the invariant. */
  lemma ProcessKeepsWellFormed(u: Updater, fullVersion: string, vp: VersionParser)
    requires WellFormed(u)
    ensures WellFormed(ProcessVersion(u, fullVersion, vp))
  {
    ProcessKeepsFiled(u, fullVersion, vp);
    ProcessKeepsActiveReady(u, fullVersion, vp);
  }

  lemma ProcessKeepsFiled(u: Updater, fullVersion: string, vp: VersionParser)
    requires Filed(u)
    ensures Filed(ProcessVersion(u, fullVersion, vp))
  {
    ProcessFilesActivations(u, fullVersion, vp);
    ProcessFilesVersions(u, fullVersion, vp);
  }

  lemma ProcessFilesActivations(u: Updater, fullVersion: string, vp: VersionParser)
    requires forall id :: id in u.activations ==>
      u.activations[id].versionId == id && u.activations[id].path == SoftwareObject(id)
    ensures var acts := ProcessVersion(u, fullVersion, vp).activations;
      forall id :: id in acts ==> acts[id].versionId == id && acts[id].path == SoftwareObject(id)
  {
  }

  lemma ProcessFilesVersions(u: Updater, fullVersion: string, vp: VersionParser)
    requires forall id :: id in u.versions ==>
      u.versions[id].versionId == id && u.versions[id].path == SoftwareObject(id)
    ensures var vs := ProcessVersion(u, fullVersion, vp).versions;
      forall id :: id in vs ==> vs[id].versionId == id && vs[id].path == SoftwareObject(id)
  {
  }

  lemma ProcessKeepsActiveReady(u: Updater, fullVersion: string, vp: VersionParser)
    requires ActiveReady(u.activations)
    ensures ActiveReady(ProcessVersion(u, fullVersion, vp).activations)
  {
    var u' := ProcessVersion(u, fullVersion, vp);
    var id := IdOf(vp, fullVersion);
    if id != [] {
      forall k | k in u'.activations && u'.activations[k].state == Active
        ensures u'.activations[k].redundancyPriority == Some(0)
        ensures Association(Inventory, HostInventory) in u'.activations[k].associations
      {
        if k == id && id in u.activations {
          assert u'.activations[id].associations == u.activations[id].associations;
          assert u'.activations[id].state == u.activations[id].state;
        }
      }
    }
  }

  /** Erasing, when it goes ahead, keeps the invariant. */
  lemma EraseKeepsWellFormed(u: Updater, versionId: string, allowed: bool)
    requires WellFormed(u)
    ensures WellFormed(Erase(u, versionId, allowed).1)
  {
  }

  /** Processing a list of full version strings one after the other. */
  function ProcessAll(u: Updater, fullVersions: seq<string>, vp: VersionParser): Updater
    decreases |fullVersions|
  {
    if fullVersions == [] then u
    else
      var n := |fullVersions| - 1;
      ProcessVersion(ProcessAll(u, fullVersions[..n], vp), fullVersions[n], vp)
  }

  /** The id of the last of the full version strings whose id is not
      empty. */
  function LastRegistered(fullVersions: seq<string>, vp: VersionParser): Option<string>
    decreases |fullVersions|
  {
    if fullVersions == [] then None
    else
      var n := |fullVersions| - 1;
      if IdOf(vp, fullVersions[n]) != [] then Some(IdOf(vp, fullVersions[n]))
      else LastRegistered(fullVersions[..n], vp)
  }

  /** After any run of image processing, exactly the id most recently
      registered with a non-empty id is functional; when none was, the
      functional image is what it was before. */
  lemma {:induction false} FunctionalIsLastRegistered(u: Updater, fullVersions: seq<string>, vp: VersionParser)
    ensures forall x :: IsVersionFunctional(ProcessAll(u, fullVersions, vp), x) <==>
      x == (match LastRegistered(fullVersions, vp)
            case Some(id) => id
            case None => u.functionalVersionId)
    decreases |fullVersions|
  {
    if fullVersions != [] {
      var n := |fullVersions| - 1;
      FunctionalIsLastRegistered(u, fullVersions[..n], vp);
    }
  }

  /** Any run of image processing from a well-formed state keeps the
      invariant. */
  lemma {:induction false} ProcessAllKeepsWellFormed(u: Updater, fullVersions: seq<string>, vp: VersionParser)
    requires WellFormed(u)
    ensures WellFormed(ProcessAll(u, fullVersions, vp))
    decreases |fullVersions|
  {
    if fullVersions != [] {
      var n := |fullVersions| - 1;
      ProcessAllKeepsWellFormed(u, fullVersions[..n], vp);
      ProcessKeepsWellFormed(ProcessAll(u, fullVersions[..n], vp), fullVersions[n], vp);
    }
  }

  /** Processing the same image again changes none of the records and not
      the functional image. */
  lemma ReprocessSameVersion(u: Updater, fullVersion: string, vp: VersionParser)
    ensures var once := ProcessVersion(u, fullVersion, vp);
      var twice := ProcessVersion(once, fullVersion, vp);
      && twice.activations == once.activations
      && twice.versions == once.versions
      && twice.functionalVersionId == once.functionalVersionId
  {
    var once := ProcessVersion(u, fullVersion, vp);
    var twice := ProcessVersion(once, fullVersion, vp);
    var id := IdOf(vp, fullVersion);
    if id != [] {
      assert twice.activations[id] == once.activations[id] by {
        if Complete(vp, fullVersion) {
          assert once.activations[id].redundancyPriority == Some(0);
        }
      }
    }
  }

  /** However often the updater processes the same flash contents, it holds
      at most the one image they name. */
  lemma {:induction false} RepeatedProcessingKeepsOneImage(fullVersion: string, vp: VersionParser, n: nat)
    ensures ProcessAll(Initial(), seq(n, _ => fullVersion), vp).activations.Keys <= {IdOf(vp, fullVersion)}
    ensures ProcessAll(Initial(), seq(n, _ => fullVersion), vp).versions.Keys <= {IdOf(vp, fullVersion)}
  {
    if n > 0 {
      var runs := seq(n, _ => fullVersion);
      assert runs[..n - 1] == seq(n - 1, _ => fullVersion);
      RepeatedProcessingKeepsOneImage(fullVersion, vp, n - 1);
    }
  }

  /** Start-up on a flash whose version reads completely: one active image
      with priority 0, its host inventory link, and its active, updateable
      and functional edges. */
  lemma BootWithCompleteVersion(fullVersion: string, vp: VersionParser)
    requires IdOf(vp, fullVersion) != [] && Complete(vp, fullVersion)
    ensures var u := ProcessVersion(Initial(), fullVersion, vp);
      var id := IdOf(vp, fullVersion);
      && u.activations.Keys == {id}
      && u.activations[id].state == Active
      && u.activations[id].redundancyPriority == Some(0)
      && u.activations[id].associations == [Association(Inventory, HostInventory)]
      && u.assocs == [Association(ActiveImage, SoftwareObject(id)),
                      Association(Updateable, SoftwareObject(id)),
                      Association(Functional, SoftwareObject(id))]
  {
    var u := ProcessVersion(Initial(), fullVersion, vp);
    var id := IdOf(vp, fullVersion);
    RegistersActivation(Initial(), fullVersion, vp);
    RegistersEdges(Initial(), fullVersion, vp);
    AssocsFromEdges(u.assocs, [Association(ActiveImage, SoftwareObject(id)),
                               Association(Updateable, SoftwareObject(id))],
                    Association(Functional, SoftwareObject(id)));
  }

  /** Start-up on a flash whose extended version is missing: one invalid
      image without priority, without the host inventory link and without
      the active edge, but still updateable and functional. */
  lemma BootWithoutExtendedVersion(fullVersion: string, vp: VersionParser)
    requires IdOf(vp, fullVersion) != []
    requires vp.getVersions(fullVersion).1 == []
    ensures var u := ProcessVersion(Initial(), fullVersion, vp);
      var id := IdOf(vp, fullVersion);
      && u.activations.Keys == {id}
      && u.activations[id].state == Invalid
      && u.activations[id].redundancyPriority.None?
      && u.activations[id].associations == []
      && u.assocs == [Association(Updateable, SoftwareObject(id)),
                      Association(Functional, SoftwareObject(id))]
  {
    var u := ProcessVersion(Initial(), fullVersion, vp);
    var id := IdOf(vp, fullVersion);
    RegistersActivation(Initial(), fullVersion, vp);
    RegistersEdges(Initial(), fullVersion, vp);
    AssocsFromEdges(u.assocs, [Association(Updateable, SoftwareObject(id))],
                    Association(Functional, SoftwareObject(id)));
  }

  /** The edges of an updater built from no edges: its non-functional edges
      followed by its one functional edge. */
  lemma AssocsFromEdges(s: seq<Association>, others: seq<Association>, functional: Association)
    requires Edges(s, false) == others && Edges(s, true) == [functional]
    requires exists pre :: s == pre + [functional] && Edges(pre, true) == []
    ensures s == others + [functional]
  {
    var pre :| s == pre + [functional] && Edges(pre, true) == [];
    EdgesAppend(pre, [functional], false);
    NoFunctionalEdges(pre);
  }

  /** A sequence without functional edges is its own non-functional part. */
  lemma {:induction false} NoFunctionalEdges(s: seq<Association>)
    requires Edges(s, true) == []
    ensures Edges(s, false) == s
  {
    if s != [] {
      NoFunctionalEdges(s[1..]);
    }
  }
}
