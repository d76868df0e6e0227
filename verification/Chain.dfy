/**
 Block-index records, the state derived from them along parent links, and the
 consensus functions the derivation calls (given as arbitrary functions).
 */
module Chain {
  import opened Options

  type Hash = nat            // the null hash is 0
  type Id = nat              // RecordIds start at 1; 0 is invalid

  const UINT256: nat := 0x1_0000_0000_0000_0000_0000_0000_0000_0000_0000_0000_0000_0000_0000_0000_0000_0000
  const UINT224: nat := 0x1_0000_0000_0000_0000_0000_0000_0000_0000_0000_0000_0000_0000_0000_0000

  datatype Record = Record(
    hash: Hash,
    hashPrev: Hash,
    height: int,
    nBits: nat,
    nFlags: nat,
    hashProof: Hash,
    nStakeModifier: nat,
    nTime: nat,
    nStakeTime: nat,
    prevoutStakeHash: Hash,
    nFile: nat,
    nBlockPos: nat)

  const NULL_RECORD := Record(0, 0, 0, 0, 0, 0, 0, 0, 0, 0, 0, 0)

  predicate IsProofOfStake(r: Record) { r.nFlags % 2 == 1 }

  predicate GeneratedStakeModifier(r: Record) { r.nFlags / 4 % 2 == 1 }

  predicate PosClassificationConsistent(r: Record) {
    IsProofOfStake(r) == (r.prevoutStakeHash != 0)
  }

  /** What the record decoder insists on. */
  predicate ValidRecord(r: Record) {
    && r.hash != 0
    && r.height >= 0
    && (r.height == 0 ==> r.hashPrev == 0)
    && (if IsProofOfStake(r) then r.nStakeTime != 0 else r.prevoutStakeHash == 0 && r.nStakeTime == 0)
  }

  /** What is hashed for a stake-modifier checksum. */
  datatype Preimage = Preimage(parentChecksum: Option<nat>, nFlags: nat, proof: Hash, nStakeModifier: nat)

  datatype Rules = Rules(
    blockTrust: (nat, int, bool, Hash, Hash) -> nat,   // nBits, height, PoS, hashProof, hash
    digest: Preimage -> nat,
    blockSize: Record -> nat,                          // 0 when the block file does not yield it
    genesis: Hash,
    guardsRoots: bool)                                 // a parentless record other than genesis gets checksum 0

  datatype Derived = Derived(trust: nat, checksum: nat, modifierTime: Option<nat>, blockSize: Option<nat>)

  const DEFAULT_DERIVED := Derived(0, 0, None, None)

  function BlockTrust(rules: Rules, r: Record): nat {
    rules.blockTrust(r.nBits, r.height, IsProofOfStake(r), r.hashProof, r.hash)
  }

  /** The top 32 bits of a 256-bit digest. */
  function Digest32(rules: Rules, p: Preimage): nat {
    rules.digest(p) % UINT256 / UINT224
  }

  function Proof(r: Record): Hash {
    if IsProofOfStake(r) then r.hashProof else 0
  }

  function ChecksumFrom(rules: Rules, r: Record, parentChecksum: nat): nat {
    if rules.guardsRoots && r.hashPrev == 0 && r.hash != rules.genesis then 0
    else Digest32(rules, Preimage(if r.hashPrev != 0 then Some(parentChecksum) else None,
                                  r.nFlags, Proof(r), r.nStakeModifier))
  }

  function ModifierTimeFrom(r: Record, parentTime: Option<nat>): Option<nat> {
    if GeneratedStakeModifier(r) then Some(r.nTime)
    else if r.hashPrev != 0 then parentTime
    else None
  }

  function SizeOf(rules: Rules, r: Record): Option<nat> {
    if r.nFile > 0 && rules.blockSize(r) > 0 then Some(rules.blockSize(r)) else None
  }

  /** ComputeDerivedFromParent. */
  function Derive(rules: Rules, r: Record, parent: Derived): Derived {
    Derived((parent.trust + BlockTrust(rules, r)) % UINT256,
            ChecksumFrom(rules, r, parent.checksum),
            ModifierTimeFrom(r, parent.modifierTime),
            SizeOf(rules, r))
  }

  // ---------------------------------------------------------------- the record store

  type Store = map<Id, Record>

  function Rec(s: Store, id: Id): Record {
    if id in s then s[id] else NULL_RECORD
  }

  /** A read of RecordId id succeeds among n committed records. */
  predicate Readable(s: Store, n: nat, id: Id) {
    1 <= id <= n && id in s && ValidRecord(s[id])
  }

  ghost predicate AllReadable(s: Store, n: nat) {
    forall id :: 1 <= id <= n ==> Readable(s, n, id)
  }

  ghost predicate UniqueHashes(s: Store, n: nat) {
    forall i, j :: 1 <= i <= n && 1 <= j <= n && Rec(s, i).hash == Rec(s, j).hash ==> i == j
  }

  ghost predicate Holds(s: Store, n: nat, h: Hash, id: Id) {
    1 <= id <= n && Rec(s, id).hash == h
  }

  /** The record with a given hash, 0 if there is none. */
  ghost function IdOf(s: Store, n: nat, h: Hash): Id {
    if exists id: Id :: Holds(s, n, h, id) then (var id: Id :| Holds(s, n, h, id); id) else 0
  }

  ghost predicate IsRoot(s: Store, id: Id) {
    Rec(s, id).hashPrev == 0
  }

  ghost function ParentId(s: Store, n: nat, id: Id): Id {
    IdOf(s, n, Rec(s, id).hashPrev)
  }

  lemma IdOfUnique(s: Store, n: nat, h: Hash, id: Id)
    requires UniqueHashes(s, n) && Holds(s, n, h, id)
    ensures IdOf(s, n, h) == id
  {
    assert Holds(s, n, h, IdOf(s, n, h));
  }

  /** From id a parentless record is reached in at most k parent steps. */
  ghost predicate Grounded(s: Store, n: nat, id: Id, k: nat)
    decreases k
  {
    && 1 <= id <= n
    && (IsRoot(s, id) || (k > 0 && Grounded(s, n, ParentId(s, n, id), k - 1)))
  }

  ghost predicate Reaches(s: Store, n: nat, id: Id) {
    exists k: nat :: Grounded(s, n, id, k)
  }

  /** The derived entry of a grounded record: from its parent's, or from the default entry. */
  ghost function Value(rules: Rules, s: Store, n: nat, id: Id, k: nat): Derived
    requires Grounded(s, n, id, k)
    decreases k
  {
    Derive(rules, Rec(s, id),
           if IsRoot(s, id) then DEFAULT_DERIVED else Value(rules, s, n, ParentId(s, n, id), k - 1))
  }

  lemma {:induction false} ValueSteady(rules: Rules, s: Store, n: nat, id: Id, j: nat, k: nat)
    requires Grounded(s, n, id, j) && Grounded(s, n, id, k)
    ensures Value(rules, s, n, id, j) == Value(rules, s, n, id, k)
    decreases j
  {
    if !IsRoot(s, id) {
      ValueSteady(rules, s, n, ParentId(s, n, id), j - 1, k - 1);
    }
  }

  /** The entry for id solves the recursion. */
  ghost predicate Solved(rules: Rules, s: Store, n: nat, m: map<Id, Derived>, id: Id) {
    id in m && exists k: nat :: Grounded(s, n, id, k) && m[id] == Value(rules, s, n, id, k)
  }

  /** Each entry is derived from its parent's entry, or from the default one if parentless. */
  ghost predicate Consistent(rules: Rules, s: Store, n: nat, m: map<Id, Derived>, id: Id) {
    && id in m
    && (IsRoot(s, id) ==> m[id] == Derive(rules, Rec(s, id), DEFAULT_DERIVED))
    && (!IsRoot(s, id) ==> ParentId(s, n, id) in m && m[id] == Derive(rules, Rec(s, id), m[ParentId(s, n, id)]))
  }

  /** A map over exactly the ids 1..n that satisfies the derivation equation everywhere. */
  ghost predicate IsSolution(rules: Rules, s: Store, n: nat, m: map<Id, Derived>) {
    && (forall id :: id in m <==> 1 <= id <= n)
    && (forall id :: 1 <= id <= n ==> Consistent(rules, s, n, m, id))
  }

  lemma {:induction false} ConsistentIsSolved(rules: Rules, s: Store, n: nat, m: map<Id, Derived>, id: Id, k: nat)
    requires IsSolution(rules, s, n, m) && Grounded(s, n, id, k)
    ensures m[id] == Value(rules, s, n, id, k)
    decreases k
  {
    assert Consistent(rules, s, n, m, id);
    if !IsRoot(s, id) {
      ConsistentIsSolved(rules, s, n, m, ParentId(s, n, id), k - 1);
    }
  }

  /** Where every record reaches a root, at most one map solves the derivation equation. */
  lemma SolutionUnique(rules: Rules, s: Store, n: nat, a: map<Id, Derived>, b: map<Id, Derived>)
    requires IsSolution(rules, s, n, a) && IsSolution(rules, s, n, b)
    requires forall id :: 1 <= id <= n ==> Reaches(s, n, id)
    ensures a == b
  {
    forall id | id in a ensures id in b && a[id] == b[id] {
      assert Reaches(s, n, id);
      var k: nat :| Grounded(s, n, id, k);
      ConsistentIsSolved(rules, s, n, a, id, k);
      ConsistentIsSolved(rules, s, n, b, id, k);
    }
    forall id | id in b ensures id in a {}
  }

  /** Entries solved one by one make up the solution. */
  lemma SolvedIsSolution(rules: Rules, s: Store, n: nat, m: map<Id, Derived>)
    requires forall id :: id in m <==> 1 <= id <= n
    requires forall id :: 1 <= id <= n ==> Solved(rules, s, n, m, id)
    ensures IsSolution(rules, s, n, m)
  {
    forall id | 1 <= id <= n ensures Consistent(rules, s, n, m, id) {
      assert Solved(rules, s, n, m, id);
      var k: nat :| Grounded(s, n, id, k) && m[id] == Value(rules, s, n, id, k);
      if !IsRoot(s, id) {
        var p := ParentId(s, n, id);
        assert Grounded(s, n, p, k - 1);
        assert Solved(rules, s, n, m, p);
        var j: nat :| Grounded(s, n, p, j) && m[p] == Value(rules, s, n, p, j);
        ValueSteady(rules, s, n, p, j, k - 1);
      }
    }
  }

  // ---------------------------------------------------------------- ancestry

  /** The k-th parent; 0 once the chain has ended. */
  ghost function Ancestor(s: Store, n: nat, id: Id, k: nat): Id
    decreases k
  {
    if k == 0 then id
    else if id == 0 || IsRoot(s, id) then 0
    else Ancestor(s, n, ParentId(s, n, id), k - 1)
  }

  /** id is its own ancestor through k > 0 parent links. */
  ghost predicate OnCycle(s: Store, n: nat, id: Id, k: nat) {
    k > 0 && 1 <= id <= n && Ancestor(s, n, id, k) == id
  }

  /** A grounded record has no ancestor left after its k steps. */
  lemma {:induction false} GroundedEnds(s: Store, n: nat, id: Id, k: nat, j: nat)
    requires Grounded(s, n, id, k) && j > k
    ensures Ancestor(s, n, id, j) == 0
    decreases k
  {
    if !IsRoot(s, id) {
      GroundedEnds(s, n, ParentId(s, n, id), k - 1, j - 1);
    }
  }

  lemma {:induction false} CycleRepeats(s: Store, n: nat, id: Id, k: nat, times: nat)
    requires OnCycle(s, n, id, k)
    ensures Ancestor(s, n, id, times * k) == id
    decreases times
  {
    if times > 0 {
      CycleRepeats(s, n, id, k, times - 1);
      AncestorAdd(s, n, id, k, (times - 1) * k);
      assert k + (times - 1) * k == times * k;
    }
  }

  lemma {:induction false} AncestorAdd(s: Store, n: nat, id: Id, j: nat, k: nat)
    ensures Ancestor(s, n, id, j + k) == Ancestor(s, n, Ancestor(s, n, id, j), k)
    decreases j
  {
    if j > 0 {
      if id == 0 || IsRoot(s, id) {
        assert Ancestor(s, n, 0, k) == 0;
      } else {
        AncestorAdd(s, n, ParentId(s, n, id), j - 1, k);
      }
    }
  }

  lemma {:induction false} Multiple(j: nat, k: nat)
    requires k > 0
    ensures (j + 1) * k > j
  {
    if j > 0 {
      Multiple(j - 1, k);
      assert (j + 1) * k == j * k + k;
    }
  }

  /** On a cycle a record returns after arbitrarily many steps. */
  lemma ReturnsLater(s: Store, n: nat, id: Id, k: nat, j: nat) returns (m: nat)
    requires OnCycle(s, n, id, k)
    ensures m > j && Ancestor(s, n, id, m) == id
  {
    m := (j + 1) * k;
    Multiple(j, k);
    CycleRepeats(s, n, id, k, j + 1);
  }

  /** A record that is its own ancestor reaches no root. */
  lemma CycleNeverGrounded(s: Store, n: nat, id: Id, k: nat)
    requires OnCycle(s, n, id, k)
    ensures !Reaches(s, n, id)
  {
    if Reaches(s, n, id) {
      var j: nat :| Grounded(s, n, id, j);
      var m := ReturnsLater(s, n, id, k, j);
      GroundedEnds(s, n, id, j, m);
    }
  }
}
