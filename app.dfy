/** The tracker's session state and the operations the app performs on it:
    adding a pairing, listing the Pokémon still free to fuse, creating and
    undoing fusions, rebuilding the `used` flags, and moving pairings to and
    from the graveyard. Each operation reports the message the app shows as
    an `Ok` or `Err` outcome; saving to disk is not modelled. */
module App {
  import opened Util
  import opened PyStr
  import opened Storage
  import opened Roster

  /** The error messages the operations can show. */
  datatype Error =
    | SamePairing              // "Choose two different pairings."
    | PairingNotFound          // "Pairing not found."
    | PairingInGraveyard       // "Selected pairing is in graveyard."
    | Player1AlreadyFused      // "Selected Player 1 Pokémon already fused."
    | Player2AlreadyFused      // "Linked Player 2 Pokémon already fused."
    | FusionNotFound           // "Fusion not found."
    | SendBlockedByFusion      // "Cannot send to graveyard. Pairing is in a fusion."
    | DeleteBlockedByFusion    // "Cannot delete. Pairing is in a fusion. Unfuse or bury the fusion first."
    | GraveyardPairingNotFound // "Graveyard pairing not found."

  datatype Result<T> = Ok(value: T) | Err(error: Error)

  /** The state as loaded from disk, before defaults: any key may be missing. */
  datatype Stored = Stored(
    graveyard: Option<seq<GraveEntry>>,
    pairings: Option<seq<Pairing>>,
    fusions: Option<seq<Fusion>>,
    nextPairId: Option<int>,
    nextFusionId: Option<int>)

  // ---------- what the state promises ----------

  /** Every pairing id and fusion id is distinct and was handed out by its
      counter, and every pairing a fusion names was too. */
  ghost predicate IdsIssued(ps: seq<Pairing>, fs: seq<Fusion>, nextPair: int, nextFusion: int) {
    DistinctBy(ps, PairingKey) && DistinctBy(fs, FusionKey) &&
    (forall p :: p in ps ==> Issued(p.id, 'P', nextPair)) &&
    (forall f :: f in fs ==> FusionIssued(f, nextPair, nextFusion))
  }

  ghost predicate FusionIssued(f: Fusion, nextPair: int, nextFusion: int) {
    Issued(f.id, 'F', nextFusion) &&
    Issued(f.player1.a.pairingId, 'P', nextPair) && Issued(f.player1.b.pairingId, 'P', nextPair) &&
    Issued(f.player2.a.pairingId, 'P', nextPair) && Issued(f.player2.b.pairingId, 'P', nextPair)
  }

  /** The invariant the operations keep: identifiers as above, and every
      `used` flag saying whether its pairing is dead or fused on that side. */
  ghost predicate Consistent(ps: seq<Pairing>, fs: seq<Fusion>, nextPair: int, nextFusion: int) {
    IdsIssued(ps, fs, nextPair, nextFusion) && FlagsConsistent(ps, fs)
  }

  /** Every graveyard entry of kind "pairing" holds an id the pairing
      counter has handed out, and no pairing still has that id: a pairing
      is either alive or in the graveyard, and its id cannot come back. */
  ghost predicate GravesApart(gs: seq<GraveEntry>, ps: seq<Pairing>, nextPair: int) {
    forall g :: g in gs && g.kind == "pairing" ==>
      Issued(g.id, 'P', nextPair) && forall p :: p in ps ==> p.id != g.id
  }

  // ---------- creating a fusion ----------

  predicate Unfused(p: Pairing) {
    !p.dead && !p.player1.used && !p.player2.used
  }

  /** The error `create_fusion_from_player1` reports, if any, its checks
      taken in the order the app makes them. */
  function FusionRejection(ps: seq<Pairing>, a: string, b: string): Option<Error> {
    if a == b then Some(SamePairing)
    else
      match (FindPairing(ps, a), FindPairing(ps, b))
      case (Some(i), Some(j)) =>
        if ps[i].dead || ps[j].dead then Some(PairingInGraveyard)
        else if ps[i].player1.used || ps[j].player1.used then Some(Player1AlreadyFused)
        else if ps[i].player2.used || ps[j].player2.used then Some(Player2AlreadyFused)
        else None
      case _ => Some(PairingNotFound)
  }

  /** The fusion made from pairings `pa` and `pb`: each player's half takes
      that player's two Pokémon as they are now, so both halves name the
      same two pairings and no other. */
  function NewFusion(id: string, pa: Pairing, pb: Pairing): Fusion {
    Fusion(id,
      FusionHalf(CandidateOf(P1)(pa), CandidateOf(P1)(pb)),
      FusionHalf(CandidateOf(P2)(pa), CandidateOf(P2)(pb)))
  }

  function Fused(p: Pairing): Pairing {
    WithUsed(p, true, true)
  }

  /** With distinct ids, a fusion is accepted exactly when the two ids differ
      and name pairings that are alive with both slots unused. */
  lemma RejectionIff(ps: seq<Pairing>, a: string, b: string)
    requires DistinctBy(ps, PairingKey)
    ensures FusionRejection(ps, a, b) == None <==>
      a != b && exists i, j :: 0 <= i < |ps| && 0 <= j < |ps| && ps[i].id == a && ps[j].id == b &&
                               Unfused(ps[i]) && Unfused(ps[j])
  {
    if FusionRejection(ps, a, b) == None {
      var i, j := FindPairing(ps, a).value, FindPairing(ps, b).value;
      assert HasId(a)(ps[i]) && HasId(b)(ps[j]);
      assert ps[i].id == a && ps[j].id == b && Unfused(ps[i]) && Unfused(ps[j]);
    }
    if a != b && exists i, j :: 0 <= i < |ps| && 0 <= j < |ps| && ps[i].id == a && ps[j].id == b &&
                               Unfused(ps[i]) && Unfused(ps[j]) {
      var i, j :| 0 <= i < |ps| && 0 <= j < |ps| && ps[i].id == a && ps[j].id == b &&
                  Unfused(ps[i]) && Unfused(ps[j]);
      FirstIsOnly(ps, a, i);
      FirstIsOnly(ps, b, j);
    }
  }

  /** While the flags are derived, a pairing some fusion already uses on
      either side cannot go into a new fusion. */
  lemma FusedRejected(ps: seq<Pairing>, fs: seq<Fusion>, nextPair: int, nextFusion: int,
                      f: Fusion, side: Side, a: string, b: string)
    requires Consistent(ps, fs, nextPair, nextFusion) && f in fs
    requires f.Refers(side, a) || f.Refers(side, b)
    ensures FusionRejection(ps, a, b).Some?
  {
    var x := if f.Refers(side, a) then a else b;
    var found := FindPairing(ps, x);
    if a != b && found.Some? {
      var p := ps[found.value];
      assert p.id == x && p in ps;
      assert AnyRefers(fs, side, x);
      assert SlotsDerived(p, fs);
      assert p.SlotOn(side).used;
      UsedRejected(ps, a, b, found.value);
    }
  }

  /** A pairing that is found for either id but is dead or used on some
      side makes the fusion fail. */
  lemma UsedRejected(ps: seq<Pairing>, a: string, b: string, i: nat)
    requires a != b && i < |ps| && !Unfused(ps[i])
    requires FindPairing(ps, a) == Some(i) || FindPairing(ps, b) == Some(i)
    ensures FusionRejection(ps, a, b).Some?
  {
  }

  /** With distinct ids, the first pairing with an id is the one with it. */
  lemma FirstIsOnly(ps: seq<Pairing>, pid: string, i: nat)
    requires DistinctBy(ps, PairingKey) && i < |ps| && ps[i].id == pid
    ensures FindPairing(ps, pid) == Some(i)
  {
    var r := FindPairing(ps, pid);
    assert HasId(pid)(ps[i]);
    DistinctAt(ps, r.value, i);
  }

  /** Both halves of a new fusion name the same two pairings and no other,
      and each component copies that player's Pokémon from its pairing. */
  lemma NewFusionShape(id: string, pa: Pairing, pb: Pairing, side: Side, pid: string)
    ensures NewFusion(id, pa, pb).Refers(side, pid) <==> pid == pa.id || pid == pb.id
    ensures NewFusion(id, pa, pb).HalfOn(side).a == Component(pa.id, pa.SlotOn(side).number, pa.SlotOn(side).name)
    ensures NewFusion(id, pa, pb).HalfOn(side).b == Component(pb.id, pb.SlotOn(side).number, pb.SlotOn(side).name)
  {
  }

  /** Creating a fusion keeps the invariant. */
  lemma CreatePreserves(ps: seq<Pairing>, fs: seq<Fusion>, nextPair: int, nextFusion: int, i: nat, j: nat)
    requires Consistent(ps, fs, nextPair, nextFusion)
    requires i < |ps| && j < |ps| && ps[i].id != ps[j].id
    ensures Consistent(ps[i := Fused(ps[i])][j := Fused(ps[j])],
                       fs + [NewFusion(FusionId(nextFusion), ps[i], ps[j])], nextPair, nextFusion + 1)
  {
    var nf := NewFusion(FusionId(nextFusion), ps[i], ps[j]);
    var ps' := ps[i := Fused(ps[i])][j := Fused(ps[j])];
    var fs' := fs + [nf];
    IdFresh('F', nextFusion);
    FusedDistinct(ps, i, j);
    AppendFreshFusion(fs, nf, nextPair, nextFusion);
    forall p | p in ps' ensures Issued(p.id, 'P', nextPair) && SlotsDerived(p, fs') {
      var k :| 0 <= k < |ps'| && ps'[k] == p;
      assert ps[k] in ps;
      forall side ensures AnyRefers(fs', side, p.id) == (AnyRefers(fs, side, p.id) || nf.Refers(side, p.id)) {
        AnyRefersAppend(fs, nf, side, p.id);
      }
      if k != i && k != j {
        assert PairingKey(ps[k]) != PairingKey(ps[i]) && PairingKey(ps[k]) != PairingKey(ps[j]) by {
          DistinctAt(ps, k, i);
          DistinctAt(ps, k, j);
        }
        assert SlotsDerived(ps[k], fs);
      }
    }
    forall f | f in fs' ensures FusionIssued(f, nextPair, nextFusion + 1) {
      if f != nf {
        assert FusionIssued(f, nextPair, nextFusion);
      } else {
        assert ps[i] in ps && ps[j] in ps;
      }
    }
  }

  /** Marking pairings fused keeps their ids, so distinct ids stay distinct. */
  lemma FusedDistinct(ps: seq<Pairing>, i: nat, j: nat)
    requires DistinctBy(ps, PairingKey) && i < |ps| && j < |ps|
    ensures DistinctBy(ps[i := Fused(ps[i])][j := Fused(ps[j])], PairingKey)
  {
    var ps' := ps[i := Fused(ps[i])][j := Fused(ps[j])];
    forall x, y | 0 <= x < y < |ps'| ensures PairingKey(ps'[x]) != PairingKey(ps'[y]) {
      assert ps'[x].id == ps[x].id && ps'[y].id == ps[y].id;
      assert PairingKey(ps[x]) != PairingKey(ps[y]);
    }
  }

  /** A fusion whose id was not issued yet differs in id from every fusion
      holding an issued one. */
  lemma AppendFreshFusion(fs: seq<Fusion>, f: Fusion, nextPair: int, nextFusion: int)
    requires DistinctBy(fs, FusionKey) && forall g :: g in fs ==> FusionIssued(g, nextPair, nextFusion)
    requires !Issued(f.id, 'F', nextFusion)
    ensures DistinctBy(fs + [f], FusionKey)
  {
    var fs' := fs + [f];
    forall x, y | 0 <= x < y < |fs'| ensures FusionKey(fs'[x]) != FusionKey(fs'[y]) {
      if y < |fs| {
        assert FusionKey(fs[x]) != FusionKey(fs[y]);
      } else {
        assert fs[x] in fs;
      }
    }
  }

  lemma DistinctAt(ps: seq<Pairing>, x: nat, y: nat)
    requires DistinctBy(ps, PairingKey) && x < |ps| && y < |ps|
    ensures x == y || ps[x].id != ps[y].id
  {
    if x < y {
      assert PairingKey(ps[x]) != PairingKey(ps[y]);
    } else if y < x {
      assert PairingKey(ps[y]) != PairingKey(ps[x]);
    }
  }

  lemma AnyRefersAppend(fs: seq<Fusion>, f: Fusion, side: Side, pid: string)
    ensures AnyRefers(fs + [f], side, pid) <==> AnyRefers(fs, side, pid) || f.Refers(side, pid)
  {
    if AnyRefers(fs + [f], side, pid) {
      var g :| g in fs + [f] && g.Refers(side, pid);
    }
    if AnyRefers(fs, side, pid) {
      var g :| g in fs && g.Refers(side, pid);
      assert g in fs + [f];
    }
    if f.Refers(side, pid) {
      assert f in fs + [f];
    }
  }

  // ---------- adding and removing pairings ----------

  /** Adding a pairing with the counter's id and both slots unused keeps the
      invariant, and the new pairing is the one its id finds. */
  lemma AddPreserves(ps: seq<Pairing>, fs: seq<Fusion>, nextPair: int, nextFusion: int, p: Pairing)
    requires Consistent(ps, fs, nextPair, nextFusion)
    requires p.id == PairId(nextPair) && !p.dead && !p.player1.used && !p.player2.used
    ensures Consistent(ps + [p], fs, nextPair + 1, nextFusion)
    ensures FindPairing(ps + [p], p.id) == Some(|ps|)
  {
    var ps' := ps + [p];
    IdFresh('P', nextPair);
    AppendFreshDistinct(ps, p, nextPair);
    forall f, side | f in fs ensures !f.Refers(side, p.id) && FusionIssued(f, nextPair + 1, nextFusion) {
      assert FusionIssued(f, nextPair, nextFusion);
    }
    forall q | q in ps' ensures Issued(q.id, 'P', nextPair + 1) && SlotsDerived(q, fs) {
      if q != p {
        assert q in ps;
        IssuedGrows(q.id, 'P', nextPair);
      }
    }
    FirstIsOnly(ps', p.id, |ps|);
  }

  /** A pairing whose id was not issued yet differs in id from every pairing
      holding an issued one. */
  lemma AppendFreshDistinct(ps: seq<Pairing>, p: Pairing, nextPair: int)
    requires DistinctBy(ps, PairingKey) && forall q :: q in ps ==> Issued(q.id, 'P', nextPair)
    requires !Issued(p.id, 'P', nextPair)
    ensures DistinctBy(ps + [p], PairingKey)
  {
    var ps' := ps + [p];
    forall x, y | 0 <= x < y < |ps'| ensures PairingKey(ps'[x]) != PairingKey(ps'[y]) {
      if y < |ps| {
        assert PairingKey(ps[x]) != PairingKey(ps[y]);
      } else {
        assert ps[x] in ps;
      }
    }
  }

  /** Filtering the pairings and the fusions keeps the identifiers' part of
      the invariant. */
  lemma FilteredIdsIssued(ps: seq<Pairing>, fs: seq<Fusion>, nextPair: int, nextFusion: int,
                          keepP: Pairing -> bool, keepF: Fusion -> bool)
    requires IdsIssued(ps, fs, nextPair, nextFusion)
    ensures IdsIssued(Filter(ps, keepP), Filter(fs, keepF), nextPair, nextFusion)
  {
    FilterDistinct(ps, keepP, PairingKey);
    FilterDistinct(fs, keepF, FusionKey);
    forall p | p in Filter(ps, keepP) ensures Issued(p.id, 'P', nextPair) {
      FilterMember(ps, keepP, p);
    }
    forall f | f in Filter(fs, keepF) ensures FusionIssued(f, nextPair, nextFusion) {
      FilterMember(fs, keepF, f);
    }
  }

  /** Recomputing the flags restores the whole invariant. */
  lemma RecomputeRestores(ps: seq<Pairing>, fs: seq<Fusion>, nextPair: int, nextFusion: int)
    requires IdsIssued(ps, fs, nextPair, nextFusion)
    ensures Consistent(Recomputed(ps, fs), fs, nextPair, nextFusion)
  {
    var r := Recomputed(ps, fs);
    RecomputedDistinct(ps, fs);
    RecomputedConsistent(ps, fs);
    forall p | p in r ensures Issued(p.id, 'P', nextPair) {
      var k :| 0 <= k < |r| && r[k] == p;
      assert ps[k] in ps;
    }
  }

  /** Removing the pairing with a given id removes exactly that pairing,
      keeps the others in order, and keeps the invariant. */
  lemma RemovePreserves(ps: seq<Pairing>, fs: seq<Fusion>, nextPair: int, nextFusion: int, i: nat)
    requires Consistent(ps, fs, nextPair, nextFusion) && i < |ps|
    ensures Filter(ps, KeepPairing(ps[i].id)) == ps[..i] + ps[i + 1..]
    ensures Consistent(Filter(ps, KeepPairing(ps[i].id)), fs, nextPair, nextFusion)
  {
    var keep := KeepPairing(ps[i].id);
    forall j | 0 <= j < |ps| && j != i ensures keep(ps[j]) {
      DistinctAt(ps, i, j);
    }
    FilterDropsOne(ps, keep, i);
    FilteredIdsIssued(ps, fs, nextPair, nextFusion, keep, (f: Fusion) => true);
    FilterKeepsEvery(fs, (f: Fusion) => true);
    forall p | p in Filter(ps, keep) ensures SlotsDerived(p, fs) {
      FilterMember(ps, keep, p);
    }
  }

  /** After undoing fusion `fid`, a slot stays used only if its pairing is
      dead or a remaining fusion still uses it. */
  lemma UnfuseReleases(ps: seq<Pairing>, fs: seq<Fusion>, fid: string, k: nat, side: Side)
    requires DistinctBy(ps, PairingKey) && k < |ps|
    ensures Recomputed(ps, Filter(fs, KeepFusion(fid)))[k].SlotOn(side).used <==>
      ps[k].dead || exists f :: f in fs && f.id != fid && f.Refers(side, ps[k].id)
  {
    var rest := Filter(fs, KeepFusion(fid));
    RecomputedUsed(ps, rest, k, side);
    forall f ensures f in rest <==> f in fs && f.id != fid {
      FilterMember(fs, KeepFusion(fid), f);
    }
  }

  /** The graveyard entries a burial adds are exactly those of the listed
      pairings present, and the pairings it keeps are exactly the others. */
  lemma BuryMembers(ps: seq<Pairing>, ids: seq<string>, g: GraveEntry, p: Pairing)
    ensures g in FilterMap(ps, GraveIfListed(ids)) <==> exists q :: q in ps && q.id in ids && g == GraveOf(q)
    ensures p in Filter(ps, NotListed(ids)) <==> p in ps && p.id !in ids
  {
    FilterMapMember(ps, GraveIfListed(ids), g);
    if exists q :: q in ps && q.id in ids && g == GraveOf(q) {
      var q :| q in ps && q.id in ids && g == GraveOf(q);
      var k :| 0 <= k < |ps| && ps[k] == q;
      assert GraveIfListed(ids)(ps[k]) == Some(g);
    }
    FilterMember(ps, NotListed(ids), p);
  }

  /** Deleting graveyard entries removes exactly the pairing entries with
      that id, and removes nothing exactly when there are none. */
  lemma GraveRemoval(gs: seq<GraveEntry>, pid: string, g: GraveEntry)
    ensures g in Filter(gs, KeepGrave(pid)) <==> g in gs && !(g.kind == "pairing" && g.id == pid)
    ensures |Filter(gs, KeepGrave(pid))| == |gs| <==>
      forall k :: 0 <= k < |gs| ==> !(gs[k].kind == "pairing" && gs[k].id == pid)
  {
    FilterMember(gs, KeepGrave(pid), g);
    FilterKeepsAll(gs, KeepGrave(pid));
  }

  // ---------- the graveyard and the pairings kept apart ----------

  /** A new pairing with the counter's id has no entry in the graveyard,
      and the entries stay issued as the counter moves on. */
  lemma AddKeepsGraves(gs: seq<GraveEntry>, ps: seq<Pairing>, nextPair: int, p: Pairing)
    requires GravesApart(gs, ps, nextPair) && p.id == PairId(nextPair)
    ensures GravesApart(gs, ps + [p], nextPair + 1)
  {
    IdFresh('P', nextPair);
    forall g | g in gs && g.kind == "pairing"
      ensures Issued(g.id, 'P', nextPair + 1) && forall q :: q in ps + [p] ==> q.id != g.id
    {
      IssuedGrows(g.id, 'P', nextPair);
    }
  }

  /** Changing pairings without changing their ids keeps them apart from
      the graveyard. */
  lemma SameIdsKeepGraves(gs: seq<GraveEntry>, ps: seq<Pairing>, ps': seq<Pairing>, nextPair: int)
    requires GravesApart(gs, ps, nextPair)
    requires |ps'| == |ps| && forall k :: 0 <= k < |ps| ==> ps'[k].id == ps[k].id
    ensures GravesApart(gs, ps', nextPair)
  {
    forall g, p | g in gs && g.kind == "pairing" && p in ps' ensures p.id != g.id {
      var k :| 0 <= k < |ps'| && ps'[k] == p;
      assert ps[k] in ps;
    }
  }

  /** Dropping pairings or graveyard entries keeps the two apart. */
  lemma FewerKeepGraves(gs: seq<GraveEntry>, ps: seq<Pairing>, gs': seq<GraveEntry>, ps': seq<Pairing>, nextPair: int)
    requires GravesApart(gs, ps, nextPair)
    requires forall g :: g in gs' ==> g in gs
    requires forall p :: p in ps' ==> p in ps
    ensures GravesApart(gs', ps', nextPair)
  {
  }

  /** Sending pairing `i` to the graveyard records its issued id and leaves
      no pairing with that id. */
  lemma SendKeepsGraves(gs: seq<GraveEntry>, ps: seq<Pairing>, nextPair: int, i: nat)
    requires GravesApart(gs, ps, nextPair) && i < |ps| && Issued(ps[i].id, 'P', nextPair)
    ensures GravesApart(gs + [GraveOf(ps[i])], Filter(ps, KeepPairing(ps[i].id)), nextPair)
  {
    var kept := Filter(ps, KeepPairing(ps[i].id));
    forall p | p in kept ensures p in ps && p.id != ps[i].id {
      FilterMember(ps, KeepPairing(ps[i].id), p);
    }
    FewerKeepGraves(gs, ps, gs, kept, nextPair);
  }

  /** Burying records the listed pairings' issued ids and keeps only the
      pairings whose ids are not listed. */
  lemma BuryKeepsGraves(gs: seq<GraveEntry>, ps: seq<Pairing>, nextPair: int, ids: seq<string>)
    requires GravesApart(gs, ps, nextPair) && forall p :: p in ps ==> Issued(p.id, 'P', nextPair)
    ensures GravesApart(gs + FilterMap(ps, GraveIfListed(ids)), Filter(ps, NotListed(ids)), nextPair)
  {
    var kept := Filter(ps, NotListed(ids));
    var added := FilterMap(ps, GraveIfListed(ids));
    forall p | p in kept ensures p in ps && p.id !in ids {
      BuryMembers(ps, ids, GraveOf(p), p);
    }
    FewerKeepGraves(gs, ps, gs, kept, nextPair);
    forall g | g in added ensures g.kind == "pairing" && Issued(g.id, 'P', nextPair) && g.id in ids {
      BuryMembers(ps, ids, g, ps[0]);
    }
  }

  // ---------- proof helpers for recompute_used_flags ----------

  /** `byId` maps each id to the last pairing carrying it, as the dict
      `{p["id"]: p for p in pairings}` does. */
  predicate IndexesLast(ps: seq<Pairing>, byId: map<string, nat>) {
    (forall id :: id in byId ==> byId[id] < |ps| && ps[byId[id]].id == id && IsLastWithId(ps, byId[id])) &&
    (forall k :: 0 <= k < |ps| ==> ps[k].id in byId)
  }

  lemma LastIndex(ps: seq<Pairing>, byId: map<string, nat>, k: nat, id: string)
    requires IndexesLast(ps, byId) && k < |ps|
    ensures (id in byId && byId[id] == k) <==> (id == ps[k].id && IsLastWithId(ps, k))
  {
    if id == ps[k].id && IsLastWithId(ps, k) {
      var j := byId[id];
      LaterDiffers(ps, j, k);
      LaterDiffers(ps, k, j);
    }
  }

  lemma LaterDiffers(ps: seq<Pairing>, j: nat, k: nat)
    requires j < |ps| && k < |ps| && IsLastWithId(ps, j)
    ensures k <= j || ps[k].id != ps[j].id
  {
  }

  function SetUsed(p: Pairing, side: Side): Pairing {
    if side == P1 then WithUsed(p, true, p.player2.used) else WithUsed(p, p.player1.used, true)
  }

  /** `if pid in pair_by_id: pair_by_id[pid][side]["used"] = True` */
  function Marked(qs: seq<Pairing>, byId: map<string, nat>, side: Side, pid: string): (r: seq<Pairing>)
    ensures |r| == |qs|
  {
    if pid in byId && byId[pid] < |qs| then qs[byId[pid] := SetUsed(qs[byId[pid]], side)] else qs
  }

  function MarkedFusion(qs: seq<Pairing>, byId: map<string, nat>, f: Fusion): seq<Pairing> {
    var q1 := Marked(qs, byId, P1, f.player1.a.pairingId);
    var q2 := Marked(q1, byId, P1, f.player1.b.pairingId);
    var q3 := Marked(q2, byId, P2, f.player2.a.pairingId);
    Marked(q3, byId, P2, f.player2.b.pairingId)
  }

  /** Marking changes at most the flag on `side` of the pairing `byId`
      gives for `pid`. */
  lemma MarkedAt(qs: seq<Pairing>, byId: map<string, nat>, side: Side, pid: string, k: nat)
    requires k < |qs|
    ensures var hit := pid in byId && byId[pid] == k;
      Marked(qs, byId, side, pid)[k] ==
        WithUsed(qs[k], qs[k].player1.used || (hit && side == P1), qs[k].player2.used || (hit && side == P2))
  {
  }

  /** Marking the four components of one more fusion turns the flags
      recomputed for the earlier fusions into those for all of them. */
  lemma FusionStep(ps: seq<Pairing>, gs: seq<Fusion>, f: Fusion, byId: map<string, nat>)
    requires IndexesLast(ps, byId)
    ensures MarkedFusion(Recomputed(ps, gs), byId, f) == Recomputed(ps, gs + [f])
  {
    forall k | 0 <= k < |ps| ensures MarkedFusion(Recomputed(ps, gs), byId, f)[k] == Recomputed(ps, gs + [f])[k] {
      FusionStepAt(ps, gs, f, byId, k);
    }
  }

  lemma FusionStepAt(ps: seq<Pairing>, gs: seq<Fusion>, f: Fusion, byId: map<string, nat>, k: nat)
    requires IndexesLast(ps, byId) && k < |ps|
    ensures MarkedFusion(Recomputed(ps, gs), byId, f)[k] == Recomputed(ps, gs + [f])[k]
  {
    var q0 := Recomputed(ps, gs);
    var q1 := Marked(q0, byId, P1, f.player1.a.pairingId);
    var q2 := Marked(q1, byId, P1, f.player1.b.pairingId);
    var q3 := Marked(q2, byId, P2, f.player2.a.pairingId);
    MarkedAt(q0, byId, P1, f.player1.a.pairingId, k);
    MarkedAt(q1, byId, P1, f.player1.b.pairingId, k);
    MarkedAt(q2, byId, P2, f.player2.a.pairingId, k);
    MarkedAt(q3, byId, P2, f.player2.b.pairingId, k);
    LastIndex(ps, byId, k, f.player1.a.pairingId);
    LastIndex(ps, byId, k, f.player1.b.pairingId);
    LastIndex(ps, byId, k, f.player2.a.pairingId);
    LastIndex(ps, byId, k, f.player2.b.pairingId);
    AnyRefersAppend(gs, f, P1, ps[k].id);
    AnyRefersAppend(gs, f, P2, ps[k].id);
  }

  /** The session state (`st.session_state["state"]`). */
  class Tracker {
    var pairings: seq<Pairing>
    var fusions: seq<Fusion>
    var graveyard: seq<GraveEntry>
    var nextPairId: int
    var nextFusionId: int

    ghost predicate Valid()
      reads this
    {
      Consistent(pairings, fusions, nextPairId, nextFusionId) &&
      GravesApart(graveyard, pairings, nextPairId)
    }

    /** `get_state`: the loaded state with each missing key given its
        default, empty lists and counters at 1. */
    constructor Load(stored: Stored)
      ensures graveyard == stored.graveyard.GetOr([])
      ensures pairings == stored.pairings.GetOr([])
      ensures fusions == stored.fusions.GetOr([])
      ensures nextPairId == stored.nextPairId.GetOr(1)
      ensures nextFusionId == stored.nextFusionId.GetOr(1)
      ensures (stored.pairings.GetOr([]) == [] && stored.fusions.GetOr([]) == [] &&
               stored.graveyard.GetOr([]) == []) ==> Valid()
    {
      graveyard := stored.graveyard.GetOr([]);
      pairings := stored.pairings.GetOr([]);
      fusions := stored.fusions.GetOr([]);
      nextPairId := stored.nextPairId.GetOr(1);
      nextFusionId := stored.nextFusionId.GetOr(1);
    }

    /** `add_pairing`: appends a pairing with the next id, both players' Pokémon
        named from the species table, sharing the encounter, neither used. */
    method AddPairing(dex: Pokedex, p1Number: int, encounter: string, p2Number: int)
      modifies this
      ensures pairings == old(pairings) + [Pairing(PairId(old(nextPairId)),
        Slot(p1Number, NameFor(dex, p1Number), encounter, false),
        Slot(p2Number, NameFor(dex, p2Number), encounter, false), false)]
      ensures nextPairId == old(nextPairId) + 1
      ensures fusions == old(fusions) && graveyard == old(graveyard) && nextFusionId == old(nextFusionId)
      ensures old(Valid()) ==> Valid() && FindPairing(pairings, PairId(old(nextPairId))) == Some(|old(pairings)|)
    {
      AppendPairing(Slot(p1Number, NameFor(dex, p1Number), encounter, false),
                    Slot(p2Number, NameFor(dex, p2Number), encounter, false));
    }

    /** The body of `add_pairing` once both slots are built. */
    method AppendPairing(player1: Slot, player2: Slot)
      requires !player1.used && !player2.used
      modifies this
      ensures pairings == old(pairings) + [Pairing(PairId(old(nextPairId)), player1, player2, false)]
      ensures nextPairId == old(nextPairId) + 1
      ensures fusions == old(fusions) && graveyard == old(graveyard) && nextFusionId == old(nextFusionId)
      ensures old(Valid()) ==> Valid() && FindPairing(pairings, PairId(old(nextPairId))) == Some(|old(pairings)|)
    {
      var pairing := Pairing(PairId(nextPairId), player1, player2, false);
      if Valid() {
        AddPreserves(pairings, fusions, nextPairId, nextFusionId, pairing);
        AddKeepsGraves(graveyard, pairings, nextPairId, pairing);
      }
      pairings := pairings + [pairing];
      nextPairId := nextPairId + 1;
    }

    /** `available_player_pokemon`: player index 0 is player 1, any other
        index player 2. */
    function AvailablePlayerPokemon(playerIdx: int): (r: seq<Component>)
      reads this
      ensures forall c :: c in r <==>
        exists p :: p in pairings && Free(p, SideOf(playerIdx)) && c == CandidateOf(SideOf(playerIdx))(p)
    {
      var side := SideOf(playerIdx);
      AvailableMembers(pairings, side);
      Available(pairings, side)
    }

    /** `create_fusion_from_player1` */
    method CreateFusionFromPlayer1(a: string, b: string) returns (r: Result<string>)
      modifies this
      ensures FusionRejection(old(pairings), a, b).Some? ==>
        r == Err(FusionRejection(old(pairings), a, b).value) && unchanged(this)
      ensures FusionRejection(old(pairings), a, b).None? ==>
        var i, j := FindPairing(old(pairings), a).value, FindPairing(old(pairings), b).value;
        var id := FusionId(old(nextFusionId));
        r == Ok(id) &&
        pairings == old(pairings)[i := Fused(old(pairings)[i])][j := Fused(old(pairings)[j])] &&
        fusions == old(fusions) + [NewFusion(id, old(pairings)[i], old(pairings)[j])] &&
        nextFusionId == old(nextFusionId) + 1 &&
        graveyard == old(graveyard) && nextPairId == old(nextPairId)
      ensures old(Valid()) ==> Valid()
    {
      if a == b {
        return Err(SamePairing);
      }
      var fa := FindPairing(pairings, a);
      var fb := FindPairing(pairings, b);
      if fa.None? || fb.None? {
        return Err(PairingNotFound);
      }
      var i, j := fa.value, fb.value;
      var pa, pb := pairings[i], pairings[j];
      if pa.dead || pb.dead {
        return Err(PairingInGraveyard);
      }
      if pa.player1.used || pb.player1.used {
        return Err(Player1AlreadyFused);
      }
      if pa.player2.used || pb.player2.used {
        return Err(Player2AlreadyFused);
      }
      assert HasId(a)(pa) && HasId(b)(pb);
      var id := FuseAt(i, j);
      r := Ok(id);
    }

    /** The success path of `create_fusion_from_player1`, once pairings `i`
        and `j` have passed the checks: all four of their slots become used
        and the fusion with the next fusion id is appended. */
    method FuseAt(i: nat, j: nat) returns (id: string)
      requires i < |pairings| && j < |pairings| && pairings[i].id != pairings[j].id
      modifies this
      ensures id == FusionId(old(nextFusionId))
      ensures pairings == old(pairings)[i := Fused(old(pairings)[i])][j := Fused(old(pairings)[j])]
      ensures fusions == old(fusions) + [NewFusion(id, old(pairings)[i], old(pairings)[j])]
      ensures nextFusionId == old(nextFusionId) + 1
      ensures graveyard == old(graveyard) && nextPairId == old(nextPairId)
      ensures old(Valid()) ==> Valid()
    {
      var pa, pb := pairings[i], pairings[j];
      id := FusionId(nextFusionId);
      var fusion := NewFusion(id, pa, pb);
      if Valid() {
        CreatePreserves(pairings, fusions, nextPairId, nextFusionId, i, j);
        SameIdsKeepGraves(graveyard, pairings, pairings[i := Fused(pa)][j := Fused(pb)], nextPairId);
      }
      pairings := pairings[i := Fused(pa)];
      pairings := pairings[j := Fused(pb)];
      fusions := fusions + [fusion];
      nextFusionId := nextFusionId + 1;
    }

    /** `recompute_used_flags`: every flag reset to the pairing's `dead`, then
        set for each component of each fusion whose pairing id is in the
        table of last pairings by id. */
    method RecomputeUsedFlags()
      modifies this
      ensures pairings == Recomputed(old(pairings), fusions)
      ensures fusions == old(fusions) && graveyard == old(graveyard)
      ensures nextPairId == old(nextPairId) && nextFusionId == old(nextFusionId)
      ensures (IdsIssued(old(pairings), fusions, nextPairId, nextFusionId) &&
               GravesApart(graveyard, old(pairings), nextPairId)) ==> Valid()
    {
      ghost var ps0 := pairings;
      ResetUsedFlags();
      var byId := LastById(pairings);
      MarkFusions(byId);
      RecomputedForgetsFlags(ps0, [], fusions);
      if IdsIssued(ps0, fusions, nextPairId, nextFusionId) && GravesApart(graveyard, ps0, nextPairId) {
        RecomputeRestores(ps0, fusions, nextPairId, nextFusionId);
        SameIdsKeepGraves(graveyard, ps0, pairings, nextPairId);
      }
    }

    /** The first loop of `recompute_used_flags`: both flags set to `dead`. */
    method ResetUsedFlags()
      modifies this
      ensures pairings == Recomputed(old(pairings), [])
      ensures fusions == old(fusions) && graveyard == old(graveyard)
      ensures nextPairId == old(nextPairId) && nextFusionId == old(nextFusionId)
    {
      ghost var ps0 := pairings;
      var n := |pairings|;
      for k := 0 to n
        invariant |pairings| == n
        invariant forall j :: 0 <= j < k ==> pairings[j] == WithUsed(ps0[j], ps0[j].dead, ps0[j].dead)
        invariant forall j :: k <= j < n ==> pairings[j] == ps0[j]
        invariant fusions == old(fusions) && graveyard == old(graveyard)
        invariant nextPairId == old(nextPairId) && nextFusionId == old(nextFusionId)
      {
        var dead := pairings[k].dead;
        pairings := pairings[k := WithUsed(pairings[k], dead, dead)];
      }
      assert pairings == Recomputed(ps0, []);
    }

    /** The last loop of `recompute_used_flags`: for each fusion, each side
        and each component, the flag on that side of the pairing `byId`
        gives for the component's id is set. */
    method MarkFusions(byId: map<string, nat>)
      requires IndexesLast(pairings, byId)
      requires Recomputed(pairings, []) == pairings
      modifies this
      ensures pairings == Recomputed(old(pairings), fusions)
      ensures fusions == old(fusions) && graveyard == old(graveyard)
      ensures nextPairId == old(nextPairId) && nextFusionId == old(nextFusionId)
    {
      ghost var ps0 := pairings;
      for i := 0 to |fusions|
        invariant fusions == old(fusions) && graveyard == old(graveyard)
        invariant nextPairId == old(nextPairId) && nextFusionId == old(nextFusionId)
        invariant pairings == Recomputed(ps0, fusions[..i])
      {
        var f := fusions[i];
        MarkUsed(byId, P1, f.player1.a.pairingId);
        MarkUsed(byId, P1, f.player1.b.pairingId);
        MarkUsed(byId, P2, f.player2.a.pairingId);
        MarkUsed(byId, P2, f.player2.b.pairingId);
        FusionStep(ps0, fusions[..i], f, byId);
        assert fusions[..i + 1] == fusions[..i] + [f];
      }
      assert fusions[..|fusions|] == fusions;
    }

    method MarkUsed(byId: map<string, nat>, side: Side, pid: string)
      modifies this
      ensures pairings == Marked(old(pairings), byId, side, pid)
      ensures fusions == old(fusions) && graveyard == old(graveyard)
      ensures nextPairId == old(nextPairId) && nextFusionId == old(nextFusionId)
    {
      if pid in byId && byId[pid] < |pairings| {
        var k := byId[pid];
        pairings := pairings[k := SetUsed(pairings[k], side)];
      }
    }

    /** `unfuse_fusion`: drops every fusion with that id; when none had it,
        reports the error with nothing changed, otherwise recomputes the
        flags. */
    method UnfuseFusion(fid: string) returns (r: Result<()>)
      modifies this
      ensures fusions == Filter(old(fusions), KeepFusion(fid))
      ensures r.Err? <==> forall k :: 0 <= k < |old(fusions)| ==> old(fusions)[k].id != fid
      ensures r.Err? ==> r.error == FusionNotFound && unchanged(this)
      ensures r.Ok? ==> pairings == Recomputed(old(pairings), fusions)
      ensures graveyard == old(graveyard) && nextPairId == old(nextPairId) && nextFusionId == old(nextFusionId)
      ensures old(Valid()) ==> Valid()
    {
      ghost var ps0, fs0 := pairings, fusions;
      var before := |fusions|;
      fusions := Filter(fusions, KeepFusion(fid));
      FilterKeepsAll(fs0, KeepFusion(fid));
      if |fusions| == before {
        return Err(FusionNotFound);
      }
      if Consistent(ps0, fs0, nextPairId, nextFusionId) {
        FilteredIdsIssued(ps0, fs0, nextPairId, nextFusionId, (p: Pairing) => true, KeepFusion(fid));
        FilterKeepsEvery(ps0, (p: Pairing) => true);
      }
      RecomputeUsedFlags();
      r := Ok(());
    }

    /** `send_pairing_to_graveyard`: a pairing with neither slot used is
        recorded in the graveyard and removed. */
    method SendPairingToGraveyard(pid: string) returns (r: Result<()>)
      modifies this
      ensures FindPairing(old(pairings), pid).None? ==> r == Err(PairingNotFound) && unchanged(this)
      ensures FindPairing(old(pairings), pid).Some? ==>
        var p := old(pairings)[FindPairing(old(pairings), pid).value];
        if p.player1.used || p.player2.used then r == Err(SendBlockedByFusion) && unchanged(this)
        else r == Ok(()) && graveyard == old(graveyard) + [GraveOf(p)] &&
             pairings == Filter(old(pairings), KeepPairing(pid)) && fusions == old(fusions) &&
             nextPairId == old(nextPairId) && nextFusionId == old(nextFusionId)
      ensures old(Valid()) ==> Valid()
    {
      var found := FindPairing(pairings, pid);
      if found.None? {
        return Err(PairingNotFound);
      }
      var p := pairings[found.value];
      if p.player1.used || p.player2.used {
        return Err(SendBlockedByFusion);
      }
      if Valid() {
        RemovePreserves(pairings, fusions, nextPairId, nextFusionId, found.value);
        SendKeepsGraves(graveyard, pairings, nextPairId, found.value);
      }
      graveyard := graveyard + [GraveOf(p)];
      pairings := Filter(pairings, KeepPairing(pid));
      r := Ok(());
    }

    /** `bury_fusion`: the pairings the fusion's player-1 half names are
        moved to the graveyard in list order, the fusion is dropped, and the
        flags are recomputed; the ids of the pairings moved are returned. */
    method BuryFusion(fid: string) returns (r: Result<seq<string>>)
      modifies this
      ensures FindFusion(old(fusions), fid).None? ==> r == Err(FusionNotFound) && unchanged(this)
      ensures FindFusion(old(fusions), fid).Some? ==>
        var f := old(fusions)[FindFusion(old(fusions), fid).value];
        var ids := [f.player1.a.pairingId, f.player1.b.pairingId];
        r == Ok(FilterMap(old(pairings), IdIfListed(ids))) &&
        graveyard == old(graveyard) + FilterMap(old(pairings), GraveIfListed(ids)) &&
        fusions == Filter(old(fusions), KeepFusion(fid)) &&
        pairings == Recomputed(Filter(old(pairings), NotListed(ids)), fusions) &&
        nextPairId == old(nextPairId) && nextFusionId == old(nextFusionId)
      ensures old(Valid()) ==> Valid()
    {
      var found := FindFusion(fusions, fid);
      if found.None? {
        return Err(FusionNotFound);
      }
      var f := fusions[found.value];
      var ids := [f.player1.a.pairingId, f.player1.b.pairingId];
      ghost var ps0, fs0, gs0 := pairings, fusions, graveyard;
      var newGraves := BuryPairings(ids);
      fusions := Filter(fusions, KeepFusion(fid));
      if Consistent(ps0, fs0, nextPairId, nextFusionId) && GravesApart(gs0, ps0, nextPairId) {
        FilteredIdsIssued(ps0, fs0, nextPairId, nextFusionId, NotListed(ids), KeepFusion(fid));
        BuryKeepsGraves(gs0, ps0, nextPairId, ids);
      }
      RecomputeUsedFlags();
      r := Ok(newGraves);
    }

    /** The loop of `bury_fusion`: each pairing whose id is listed gets a
        graveyard entry, in list order, and the others are kept. */
    method BuryPairings(ids: seq<string>) returns (newGraves: seq<string>)
      modifies this
      ensures newGraves == FilterMap(old(pairings), IdIfListed(ids))
      ensures graveyard == old(graveyard) + FilterMap(old(pairings), GraveIfListed(ids))
      ensures pairings == Filter(old(pairings), NotListed(ids))
      ensures fusions == old(fusions) && nextPairId == old(nextPairId) && nextFusionId == old(nextFusionId)
    {
      ghost var ps0 := pairings;
      newGraves := [];
      var keep: seq<Pairing> := [];
      for k := 0 to |pairings|
        invariant pairings == ps0 && fusions == old(fusions)
        invariant nextPairId == old(nextPairId) && nextFusionId == old(nextFusionId)
        invariant graveyard == old(graveyard) + FilterMap(ps0[..k], GraveIfListed(ids))
        invariant newGraves == FilterMap(ps0[..k], IdIfListed(ids))
        invariant keep == Filter(ps0[..k], NotListed(ids))
      {
        var p := pairings[k];
        assert ps0[..k + 1][..k] == ps0[..k];
        if p.id in ids {
          graveyard := graveyard + [GraveOf(p)];
          newGraves := newGraves + [p.id];
        } else {
          keep := keep + [p];
        }
      }
      assert ps0[..|ps0|] == ps0;
      pairings := keep;
    }

    /** `delete_pairing`: a pairing with neither slot used is removed. */
    method DeletePairing(pid: string) returns (r: Result<()>)
      modifies this
      ensures FindPairing(old(pairings), pid).None? ==> r == Err(PairingNotFound) && unchanged(this)
      ensures FindPairing(old(pairings), pid).Some? ==>
        var p := old(pairings)[FindPairing(old(pairings), pid).value];
        if p.player1.used || p.player2.used then r == Err(DeleteBlockedByFusion) && unchanged(this)
        else r == Ok(()) && pairings == Filter(old(pairings), KeepPairing(pid)) &&
             graveyard == old(graveyard) && fusions == old(fusions) &&
             nextPairId == old(nextPairId) && nextFusionId == old(nextFusionId)
      ensures old(Valid()) ==> Valid()
    {
      var found := FindPairing(pairings, pid);
      if found.None? {
        return Err(PairingNotFound);
      }
      var p := pairings[found.value];
      if p.player1.used || p.player2.used {
        return Err(DeleteBlockedByFusion);
      }
      if Valid() {
        RemovePreserves(pairings, fusions, nextPairId, nextFusionId, found.value);
        forall q | q in Filter(pairings, KeepPairing(pid)) ensures q in pairings {
          FilterMember(pairings, KeepPairing(pid), q);
        }
        FewerKeepGraves(graveyard, pairings, graveyard, Filter(pairings, KeepPairing(pid)), nextPairId);
      }
      pairings := Filter(pairings, KeepPairing(pid));
      r := Ok(());
    }

    /** `delete_graveyard_pairing`: drops the graveyard's pairing entries
        with that id; when there were none, reports the error with nothing
        changed. */
    method DeleteGraveyardPairing(pid: string) returns (r: Result<()>)
      modifies this
      ensures graveyard == Filter(old(graveyard), KeepGrave(pid))
      ensures r.Err? <==> forall k :: 0 <= k < |old(graveyard)| ==> KeepGrave(pid)(old(graveyard)[k])
      ensures r.Err? ==> r.error == GraveyardPairingNotFound && unchanged(this)
      ensures pairings == old(pairings) && fusions == old(fusions)
      ensures nextPairId == old(nextPairId) && nextFusionId == old(nextFusionId)
      ensures old(Valid()) ==> Valid()
    {
      ghost var gs0 := graveyard;
      var before := |graveyard|;
      graveyard := Filter(graveyard, KeepGrave(pid));
      FilterKeepsAll(gs0, KeepGrave(pid));
      forall g | g in graveyard ensures g in gs0 {
        FilterMember(gs0, KeepGrave(pid), g);
      }
      if GravesApart(gs0, pairings, nextPairId) {
        FewerKeepGraves(gs0, pairings, graveyard, pairings, nextPairId);
      }
      if |graveyard| == before {
        return Err(GraveyardPairingNotFound);
      }
      r := Ok(());
    }
  }

  /** `{p["id"]: p for p in pairings}`, holding positions: a later pairing
      with the same id replaces an earlier one. */
  method LastById(ps: seq<Pairing>) returns (byId: map<string, nat>)
    ensures IndexesLast(ps, byId)
  {
    byId := map[];
    for k := 0 to |ps|
      invariant forall id :: id in byId ==>
        byId[id] < k && ps[byId[id]].id == id && forall j :: byId[id] < j < k ==> ps[j].id != id
      invariant forall j :: 0 <= j < k ==> ps[j].id in byId
    {
      byId := byId[ps[k].id := k];
    }
  }

  function SideOf(playerIdx: int): Side {
    if playerIdx == 0 then P1 else P2
  }

  lemma AvailableMembers(ps: seq<Pairing>, side: Side)
    ensures forall c :: c in Available(ps, side) <==>
      exists p :: p in ps && Free(p, side) && c == CandidateOf(side)(p)
  {
    forall c ensures c in Available(ps, side) <==>
      exists p :: p in ps && Free(p, side) && c == CandidateOf(side)(p) {
      AvailableMember(ps, side, c);
    }
  }
}
