/** The tracker's records and the rules that relate them, as values: a
    pairing links the Pokémon both players caught on one route; a fusion
    combines two pairings on each player's side; the graveyard lists the
    pairings that died. Each slot's `used` flag is derived from the pairings
    and the fusions, and this module states that derivation. */
module Roster {
  import opened Util
  import opened PyStr

  datatype Side = P1 | P2

  /** One player's Pokémon in a pairing. */
  datatype Slot = Slot(number: int, name: string, encounter: string, used: bool)

  /** A pairing; `dead` is false when the stored record has no such key. */
  datatype Pairing = Pairing(id: string, player1: Slot, player2: Slot, dead: bool) {
    function SlotOn(side: Side): Slot {
      if side == P1 then player1 else player2
    }
  }

  /** A snapshot of one pairing's slot inside a fusion. */
  datatype Component = Component(pairingId: string, number: int, name: string)

  datatype FusionHalf = FusionHalf(a: Component, b: Component)

  datatype Fusion = Fusion(id: string, player1: FusionHalf, player2: FusionHalf) {
    function HalfOn(side: Side): FusionHalf {
      if side == P1 then player1 else player2
    }

    /** One of this fusion's components on `side` names pairing `pid`. */
    predicate Refers(side: Side, pid: string) {
      HalfOn(side).a.pairingId == pid || HalfOn(side).b.pairingId == pid
    }
  }

  datatype GraveEntry = GraveEntry(kind: string, id: string, player1Number: int, player2Number: int)

  // ---------- identifiers ----------

  /** A tag letter followed by `f"{n:04d}"`. */
  function TaggedId(tag: char, n: int): string {
    [tag] + FormatPadded(n, 4)
  }

  /** `f"P{n:04d}"` */
  function PairId(n: int): string {
    TaggedId('P', n)
  }

  /** `f"F{n:04d}"` */
  function FusionId(n: int): string {
    TaggedId('F', n)
  }

  /** `id` was made from a counter value below `next`: an identifier the
      counter has already handed out. */
  ghost predicate Issued(id: string, tag: char, next: int) {
    exists n :: n < next && id == TaggedId(tag, n)
  }

  /** Reading the digits after the tag back with `int()` gives the counter
      value, for negative values too. */
  lemma TaggedRoundTrip(tag: char, n: int)
    ensures ParseInt(TaggedId(tag, n)[1..]) == Some(n)
  {
    assert TaggedId(tag, n)[1..] == FormatPadded(n, 4);
    FormatPaddedRoundTrip(n, 4);
  }

  /** Distinct counter values give distinct identifiers. */
  lemma TaggedIdInjective(tag: char, m: int, n: int)
    ensures TaggedId(tag, m) == TaggedId(tag, n) <==> m == n
  {
    TaggedRoundTrip(tag, m);
    TaggedRoundTrip(tag, n);
  }

  /** The identifier made from the counter's value has not been handed out,
      and counts as handed out once the counter moves past it. */
  lemma IdFresh(tag: char, n: int)
    ensures !Issued(TaggedId(tag, n), tag, n) && Issued(TaggedId(tag, n), tag, n + 1)
  {
    forall m | m < n ensures TaggedId(tag, n) != TaggedId(tag, m) {
      TaggedIdInjective(tag, m, n);
    }
  }

  /** Moving the counter on keeps every handed-out identifier handed out. */
  lemma IssuedGrows(id: string, tag: char, next: int)
    requires Issued(id, tag, next)
    ensures Issued(id, tag, next + 1)
  {
    var n :| n < next && id == TaggedId(tag, n);
    assert n < next + 1;
  }

  /** For counter values 0 to 9999 a pairing identifier is "P" and exactly
      four decimal digits. */
  lemma PairIdShape(n: nat)
    requires n < 10000
    ensures |PairId(n)| == 5 && PairId(n)[0] == 'P'
    ensures forall i :: 1 <= i < 5 ==> IsDigit(PairId(n)[i])
  {
    assert Pow10(4) == 10000;
    FormatPaddedWidth(n, 4);
    assert forall i :: 1 <= i < 5 ==> PairId(n)[i] == FormatPadded(n, 4)[i - 1];
  }

  // ---------- keys and per-record predicates ----------

  function PairingKey(p: Pairing): string { p.id }

  function FusionKey(f: Fusion): string { f.id }

  function HasId(pid: string): Pairing -> bool {
    (p: Pairing) => p.id == pid
  }

  function FusionHasId(fid: string): Fusion -> bool {
    (f: Fusion) => f.id == fid
  }

  /** `next((p for p in pairings if p["id"] == pid), None)` */
  function FindPairing(ps: seq<Pairing>, pid: string): Option<nat> {
    FindFirst(ps, HasId(pid))
  }

  function FindFusion(fs: seq<Fusion>, fid: string): Option<nat> {
    FindFirst(fs, FusionHasId(fid))
  }

  /** The filter `x["id"] != pid` that removes a pairing. */
  function KeepPairing(pid: string): Pairing -> bool {
    (p: Pairing) => p.id != pid
  }

  /** The filter `f["id"] != fid` that removes a fusion. */
  function KeepFusion(fid: string): Fusion -> bool {
    (f: Fusion) => f.id != fid
  }

  /** The filter that removes the graveyard's pairing entries for `pid`. */
  function KeepGrave(pid: string): GraveEntry -> bool {
    (g: GraveEntry) => !(g.kind == "pairing" && g.id == pid)
  }

  /** The graveyard entry recorded for a pairing. */
  function GraveOf(p: Pairing): GraveEntry {
    GraveEntry("pairing", p.id, p.player1.number, p.player2.number)
  }

  /** Burying: the entry of a pairing whose id is among `ids`. */
  function GraveIfListed(ids: seq<string>): Pairing -> Option<GraveEntry> {
    (p: Pairing) => if p.id in ids then Some(GraveOf(p)) else None
  }

  /** Burying: the id of a pairing whose id is among `ids`. */
  function IdIfListed(ids: seq<string>): Pairing -> Option<string> {
    (p: Pairing) => if p.id in ids then Some(p.id) else None
  }

  function NotListed(ids: seq<string>): Pairing -> bool {
    (p: Pairing) => p.id !in ids
  }

  // ---------- available Pokémon ----------

  /** A pairing whose slot on `side` may still be fused. */
  predicate Free(p: Pairing, side: Side) {
    !p.dead && !p.SlotOn(side).used
  }

  function IsFree(side: Side): Pairing -> bool {
    (p: Pairing) => Free(p, side)
  }

  function CandidateOf(side: Side): Pairing -> Component {
    (p: Pairing) => Component(p.id, p.SlotOn(side).number, p.SlotOn(side).name)
  }

  /** `available_player_pokemon`: the free slots on `side`, in pairing order. */
  function Available(ps: seq<Pairing>, side: Side): seq<Component> {
    MapSeq(Filter(ps, IsFree(side)), CandidateOf(side))
  }

  /** A candidate is offered exactly when it is the slot of a free pairing. */
  lemma AvailableMember(ps: seq<Pairing>, side: Side, c: Component)
    ensures c in Available(ps, side) <==>
      exists p :: p in ps && Free(p, side) && c == CandidateOf(side)(p)
  {
    var kept := Filter(ps, IsFree(side));
    if c in Available(ps, side) {
      var i :| 0 <= i < |kept| && c == CandidateOf(side)(kept[i]);
      FilterMember(ps, IsFree(side), kept[i]);
    }
    if exists p :: p in ps && Free(p, side) && c == CandidateOf(side)(p) {
      var p :| p in ps && Free(p, side) && c == CandidateOf(side)(p);
      FilterMember(ps, IsFree(side), p);
      var i :| 0 <= i < |kept| && kept[i] == p;
      assert Available(ps, side)[i] == c;
    }
  }

  /** The candidates keep the order of the pairings they come from. */
  lemma AvailableAppend(ps: seq<Pairing>, qs: seq<Pairing>, side: Side)
    ensures Available(ps + qs, side) == Available(ps, side) + Available(qs, side)
  {
    FilterAppend(ps, qs, IsFree(side));
  }

  // ---------- the used flags ----------

  /** Some fusion has a component on `side` that names pairing `pid`. */
  predicate AnyRefers(fs: seq<Fusion>, side: Side, pid: string) {
    exists f :: f in fs && f.Refers(side, pid)
  }

  /** No later pairing has the same id: the one `{p["id"]: p for p in ...}`
      keeps. */
  predicate IsLastWithId(ps: seq<Pairing>, k: nat)
    requires k < |ps|
  {
    forall j :: k < j < |ps| ==> ps[j].id != ps[k].id
  }

  /** What `recompute_used_flags` makes of the flag on `side` of pairing `k`. */
  predicate DerivedUsed(ps: seq<Pairing>, fs: seq<Fusion>, k: nat, side: Side)
    requires k < |ps|
  {
    ps[k].dead || (IsLastWithId(ps, k) && AnyRefers(fs, side, ps[k].id))
  }

  function WithUsed(p: Pairing, used1: bool, used2: bool): Pairing {
    p.(player1 := p.player1.(used := used1), player2 := p.player2.(used := used2))
  }

  /** The pairings after `recompute_used_flags`. */
  function Recomputed(ps: seq<Pairing>, fs: seq<Fusion>): (r: seq<Pairing>)
    ensures |r| == |ps|
  {
    seq(|ps|, k requires 0 <= k < |ps| =>
      WithUsed(ps[k], DerivedUsed(ps, fs, k, P1), DerivedUsed(ps, fs, k, P2)))
  }

  /** Both flags of `p` say whether it is dead or fused on that side. */
  predicate SlotsDerived(p: Pairing, fs: seq<Fusion>) {
    p.player1.used == (p.dead || AnyRefers(fs, P1, p.id)) &&
    p.player2.used == (p.dead || AnyRefers(fs, P2, p.id))
  }

  predicate FlagsConsistent(ps: seq<Pairing>, fs: seq<Fusion>) {
    forall p :: p in ps ==> SlotsDerived(p, fs)
  }

  /** Recomputing changes nothing but the used flags: restoring the old
      flags gives back the old pairings. */
  lemma RecomputedOnlyFlags(ps: seq<Pairing>, fs: seq<Fusion>)
    ensures forall k :: 0 <= k < |ps| ==>
      WithUsed(Recomputed(ps, fs)[k], ps[k].player1.used, ps[k].player2.used) == ps[k]
  {
  }

  /** With distinct ids, a recomputed flag is set exactly when the pairing is
      dead or some fusion uses it on that side; references to ids no pairing
      has play no part. */
  lemma RecomputedUsed(ps: seq<Pairing>, fs: seq<Fusion>, k: nat, side: Side)
    requires DistinctBy(ps, PairingKey) && k < |ps|
    ensures Recomputed(ps, fs)[k].SlotOn(side).used <==>
      ps[k].dead || exists f :: f in fs && f.Refers(side, ps[k].id)
  {
    assert IsLastWithId(ps, k) by {
      forall j | k < j < |ps| ensures ps[j].id != ps[k].id {
        assert PairingKey(ps[k]) != PairingKey(ps[j]);
      }
    }
  }

  /** Recomputing keeps the ids, so distinct ids stay distinct. */
  lemma RecomputedDistinct(ps: seq<Pairing>, fs: seq<Fusion>)
    requires DistinctBy(ps, PairingKey)
    ensures DistinctBy(Recomputed(ps, fs), PairingKey)
  {
    var r := Recomputed(ps, fs);
    forall i, j | 0 <= i < j < |r| ensures PairingKey(r[i]) != PairingKey(r[j]) {
      assert r[i].id == ps[i].id && r[j].id == ps[j].id;
      assert PairingKey(ps[i]) != PairingKey(ps[j]);
    }
  }

  /** With distinct ids, recomputing leaves every flag derived. */
  lemma RecomputedConsistent(ps: seq<Pairing>, fs: seq<Fusion>)
    requires DistinctBy(ps, PairingKey)
    ensures FlagsConsistent(Recomputed(ps, fs), fs)
  {
    var r := Recomputed(ps, fs);
    forall p | p in r ensures SlotsDerived(p, fs) {
      var k :| 0 <= k < |r| && r[k] == p;
      RecomputedUsed(ps, fs, k, P1);
      RecomputedUsed(ps, fs, k, P2);
    }
  }

  /** Flags that are already derived are left as they are. */
  lemma ConsistentRecomputed(ps: seq<Pairing>, fs: seq<Fusion>)
    requires DistinctBy(ps, PairingKey) && FlagsConsistent(ps, fs)
    ensures Recomputed(ps, fs) == ps
  {
    var r := Recomputed(ps, fs);
    forall k | 0 <= k < |ps| ensures r[k] == ps[k] {
      assert SlotsDerived(ps[k], fs);
      RecomputedUsed(ps, fs, k, P1);
      RecomputedUsed(ps, fs, k, P2);
    }
  }

  /** Recomputing ignores the flags it is given, whatever they are: two
      lists that differ only in their `used` flags recompute alike, because
      the first loop resets every flag. */
  lemma RecomputedIgnoresFlags(ps: seq<Pairing>, qs: seq<Pairing>, fs: seq<Fusion>)
    requires |ps| == |qs|
    requires forall k :: 0 <= k < |ps| ==> WithUsed(qs[k], false, false) == WithUsed(ps[k], false, false)
    ensures Recomputed(qs, fs) == Recomputed(ps, fs)
  {
    forall k | 0 <= k < |ps| ensures Recomputed(qs, fs)[k] == Recomputed(ps, fs)[k] {
      assert qs[k].id == ps[k].id && qs[k].dead == ps[k].dead;
      assert IsLastWithId(qs, k) == IsLastWithId(ps, k) by {
        forall j | k < j < |ps| ensures qs[j].id == ps[j].id {
          assert WithUsed(qs[j], false, false) == WithUsed(ps[j], false, false);
        }
      }
    }
  }

  /** Recomputing an already recomputed list gives what recomputing the
      original gives: the flags an earlier recompute left are forgotten. */
  lemma RecomputedForgetsFlags(ps: seq<Pairing>, gs: seq<Fusion>, fs: seq<Fusion>)
    ensures Recomputed(Recomputed(ps, gs), fs) == Recomputed(ps, fs)
  {
    RecomputedOnlyFlags(ps, gs);
    var r := Recomputed(ps, gs);
    forall k | 0 <= k < |ps| ensures WithUsed(r[k], false, false) == WithUsed(ps[k], false, false) {
      assert WithUsed(r[k], ps[k].player1.used, ps[k].player2.used) == ps[k];
    }
    RecomputedIgnoresFlags(ps, r, fs);
  }

  /** Recomputing a second time gives the same pairings as once. */
  lemma RecomputedIdempotent(ps: seq<Pairing>, fs: seq<Fusion>)
    ensures Recomputed(Recomputed(ps, fs), fs) == Recomputed(ps, fs)
  {
    RecomputedForgetsFlags(ps, fs, fs);
  }

  /** A fusion none of whose components names a listed pairing does not
      change the recomputed flags. */
  lemma RecomputedIgnoresAbsent(ps: seq<Pairing>, fs: seq<Fusion>, gs: seq<Fusion>, f: Fusion)
    requires forall p, side :: p in ps ==> !f.Refers(side, p.id)
    ensures Recomputed(ps, fs + [f] + gs) == Recomputed(ps, fs + gs)
  {
    var all, rest := fs + [f] + gs, fs + gs;
    forall k, side | 0 <= k < |ps| ensures AnyRefers(all, side, ps[k].id) == AnyRefers(rest, side, ps[k].id) {
      assert !f.Refers(side, ps[k].id);
      if AnyRefers(all, side, ps[k].id) {
        var g :| g in all && g.Refers(side, ps[k].id);
        assert g in rest;
      }
    }
  }

  /** While the flags are derived, a slot is free exactly when its pairing is
      alive and no fusion uses it on that side, and such a slot is offered. */
  lemma AvailableWhenConsistent(ps: seq<Pairing>, fs: seq<Fusion>, side: Side, p: Pairing)
    requires FlagsConsistent(ps, fs) && p in ps
    ensures CandidateOf(side)(p) in Available(ps, side) <== !p.dead && !AnyRefers(fs, side, p.id)
    ensures Free(p, side) <==> !p.dead && !AnyRefers(fs, side, p.id)
  {
    assert SlotsDerived(p, fs);
    AvailableMember(ps, side, CandidateOf(side)(p));
  }
}
