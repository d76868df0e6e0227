/**
 What the derived entries are, in the fields of the records: the checksum over the parent's,
 the time of the nearest stake modifier, and the trust summed along the ancestry.
 */
module DerivedLaws {
  import opened Options
  import opened Chain
  import opened BuilderRows

  // ---------------------------------------------------------------- one step

  /** The top 32 bits of the 256 of a digest. */
  ghost predicate IsTop32(digest: nat, top: nat) {
    top == digest / 0x1_0000_0000_0000_0000_0000_0000_0000_0000_0000_0000_0000_0000_0000_0000 % 0x1_0000_0000
  }

  /** What a checksum is taken over; only a proof-of-stake record (odd nFlags) gives its hashProof. */
  ghost predicate IsChecksum(rules: Rules, r: Record, parentChecksum: Option<nat>, checksum: nat) {
    IsTop32(rules.digest(Preimage(parentChecksum, r.nFlags, if r.nFlags % 2 == 1 then r.hashProof else 0,
                                  r.nStakeModifier)),
            checksum)
  }

  /** The trust of a block of its own. */
  ghost function OwnTrust(rules: Rules, r: Record): nat {
    rules.blockTrust(r.nBits, r.height, r.nFlags % 2 == 1, r.hashProof, r.hash)
  }

  /** Bit 4 of nFlags: the block generated a stake modifier. */
  ghost predicate Generated(r: Record) {
    r.nFlags / 4 % 2 == 1
  }

  /** d is the entry of r after a parent with the given trust, checksum and time. */
  ghost predicate Follows(rules: Rules, r: Record, trust: nat, checksum: nat, time: Option<nat>, d: Derived) {
    && d.trust == (trust + OwnTrust(rules, r))
                  % 0x1_0000_0000_0000_0000_0000_0000_0000_0000_0000_0000_0000_0000_0000_0000_0000_0000
    && (if r.hashPrev != 0 then IsChecksum(rules, r, Some(checksum), d.checksum)
        else if rules.guardsRoots && r.hash != rules.genesis then d.checksum == 0
        else IsChecksum(rules, r, None, d.checksum))
    && d.modifierTime == (if Generated(r) then Some(r.nTime) else if r.hashPrev != 0 then time else None)
    && d.blockSize == if r.nFile > 0 && rules.blockSize(r) > 0 then Some(rules.blockSize(r)) else None
  }

  lemma TopBits(x: nat)
    ensures x % UINT256 / UINT224
         == x / 0x1_0000_0000_0000_0000_0000_0000_0000_0000_0000_0000_0000_0000_0000_0000 % 0x1_0000_0000
  {
  }

  lemma DeriveFollows(rules: Rules, r: Record, parent: Derived)
    ensures Follows(rules, r, parent.trust, parent.checksum, parent.modifierTime, Derive(rules, r, parent))
  {
    TopBits(rules.digest(Preimage(Some(parent.checksum), r.nFlags, Proof(r), r.nStakeModifier)));
    TopBits(rules.digest(Preimage(None, r.nFlags, Proof(r), r.nStakeModifier)));
  }

  // ---------------------------------------------------------------- along an ancestry

  /** Each record of the path has the entry that follows from the next one's, the last the entry of a first record. */
  ghost predicate Chained(rules: Rules, s: Store, m: map<Id, Derived>, path: seq<Id>) {
    && path != [] && path[0] in m
    && if |path| == 1 then Follows(rules, Rec(s, path[0]), 0, 0, None, m[path[0]])
       else && Chained(rules, s, m, path[1..])
            && Rec(s, path[0]).hashPrev != 0
            && var p := m[path[1]]; Follows(rules, Rec(s, path[0]), p.trust, p.checksum, p.modifierTime, m[path[0]])
  }

  ghost function TrustSum(rules: Rules, s: Store, path: seq<Id>): nat {
    if path == [] then 0 else OwnTrust(rules, Rec(s, path[0])) + TrustSum(rules, s, path[1..])
  }

  /** The time of the first record of the path that generated a modifier, if any did. */
  ghost predicate NearestTime(s: Store, path: seq<Id>, time: Option<nat>) {
    && (time == None <==> forall i :: 0 <= i < |path| ==> !Generated(Rec(s, path[i])))
    && forall i :: 0 <= i < |path| && Generated(Rec(s, path[i]))
                   && (forall j :: 0 <= j < i ==> !Generated(Rec(s, path[j]))) ==>
                   time == Some(Rec(s, path[i]).nTime)
  }

  lemma AddMod(a: nat, b: nat)
    ensures (a % UINT256 + b) % UINT256 == (a + b) % UINT256
  {
  }

  lemma {:induction false} TrustAlong(rules: Rules, s: Store, m: map<Id, Derived>, path: seq<Id>)
    requires Chained(rules, s, m, path)
    ensures m[path[0]].trust == TrustSum(rules, s, path)
                                % 0x1_0000_0000_0000_0000_0000_0000_0000_0000_0000_0000_0000_0000_0000_0000_0000_0000
  {
    hide OwnTrust;
    if |path| == 1 {
      assert path[1..] == [];
    } else {
      TrustAlong(rules, s, m, path[1..]);
      AddMod(TrustSum(rules, s, path[1..]), OwnTrust(rules, Rec(s, path[0])));
    }
  }

  lemma NearestStep(s: Store, path: seq<Id>, time: Option<nat>, r: Record)
    requires |path| > 1 && NearestTime(s, path[1..], time) && r == Rec(s, path[0])
    ensures NearestTime(s, path, if Generated(r) then Some(r.nTime) else time)
  {
    hide Generated;
    var t := path[1..];
    assert forall i :: 0 <= i < |t| ==> t[i] == path[i + 1];
    assert forall i :: 0 < i < |path| ==> path[i] == t[i - 1];
  }

  lemma {:induction false} TimeAlong(rules: Rules, s: Store, m: map<Id, Derived>, path: seq<Id>)
    requires Chained(rules, s, m, path)
    ensures NearestTime(s, path, m[path[0]].modifierTime)
  {
    hide Generated;
    if |path| > 1 {
      TimeAlong(rules, s, m, path[1..]);
      NearestStep(s, path, m[path[1]].modifierTime, Rec(s, path[0]));
    }
  }

  // ---------------------------------------------------------------- solutions of the derivation equation

  /** From a record by parent links to a parentless one. */
  ghost predicate Ancestry(s: Store, n: nat, path: seq<Id>) {
    && path != [] && 1 <= path[0] <= n
    && if |path| == 1 then Rec(s, path[0]).hashPrev == 0
       else Rec(s, path[0]).hashPrev != 0 && path[1] == ParentId(s, n, path[0]) && Ancestry(s, n, path[1..])
  }

  lemma {:induction false} AncestryOf(s: Store, n: nat, id: Id, k: nat) returns (path: seq<Id>)
    requires Grounded(s, n, id, k)
    ensures Ancestry(s, n, path) && path[0] == id
    decreases k
  {
    path := [id];
    if !IsRoot(s, id) {
      var rest := AncestryOf(s, n, ParentId(s, n, id), k - 1);
      path := [id] + rest;
    }
  }

  lemma SolutionFollows(rules: Rules, s: Store, n: nat, m: map<Id, Derived>, id: Id)
    requires IsSolution(rules, s, n, m) && 1 <= id <= n
    ensures id in m
    ensures if Rec(s, id).hashPrev == 0 then Follows(rules, Rec(s, id), 0, 0, None, m[id])
            else ParentId(s, n, id) in m && var p := m[ParentId(s, n, id)];
                 Follows(rules, Rec(s, id), p.trust, p.checksum, p.modifierTime, m[id])
  {
    hide Derive, Follows;
    assert Consistent(rules, s, n, m, id);
    DeriveFollows(rules, Rec(s, id), if IsRoot(s, id) then DEFAULT_DERIVED else m[ParentId(s, n, id)]);
  }

  lemma {:induction false} SolutionChained(rules: Rules, s: Store, n: nat, m: map<Id, Derived>, path: seq<Id>)
    requires IsSolution(rules, s, n, m) && Ancestry(s, n, path)
    ensures Chained(rules, s, m, path)
  {
    hide Follows;
    SolutionFollows(rules, s, n, m, path[0]);
    if |path| > 1 { SolutionChained(rules, s, n, m, path[1..]); }
  }

  /**
   The entry of a record in the fields of its ancestry: trust the sum of the blocks' modulo 2^256, time that of the
   nearest generated modifier, checksum the top 32 bits of the digest over the parent's and the record's own fields.
   */
  lemma SolutionMeaning(rules: Rules, s: Store, n: nat, m: map<Id, Derived>, path: seq<Id>)
    requires IsSolution(rules, s, n, m) && Ancestry(s, n, path)
    ensures path[0] in m
    ensures m[path[0]].trust == TrustSum(rules, s, path)
                                % 0x1_0000_0000_0000_0000_0000_0000_0000_0000_0000_0000_0000_0000_0000_0000_0000_0000
    ensures NearestTime(s, path, m[path[0]].modifierTime)
    ensures |path| > 1 ==>
              path[1] in m && IsChecksum(rules, Rec(s, path[0]), Some(m[path[1]].checksum), m[path[0]].checksum)
    ensures |path| == 1 ==>
              if rules.guardsRoots && Rec(s, path[0]).hash != rules.genesis then m[path[0]].checksum == 0
              else IsChecksum(rules, Rec(s, path[0]), None, m[path[0]].checksum)
  {
    hide TrustSum, NearestTime, IsSolution, ParentId;
    SolutionChained(rules, s, n, m, path);
    TrustAlong(rules, s, m, path);
    TimeAlong(rules, s, m, path);
  }

  // ---------------------------------------------------------------- what a pass over the rows computes

  /** From a record by the links to parents that sort first, as far as they go. */
  ghost predicate RowAncestry(s: Store, n: nat, path: seq<Id>) {
    && path != [] && 1 <= path[0] <= n
    && if |path| == 1 then !ParentFirst(s, n, path[0])
       else ParentFirst(s, n, path[0]) && path[1] == ParentId(s, n, path[0]) && RowAncestry(s, n, path[1..])
  }

  lemma {:induction false} RowAncestryOf(s: Store, n: nat, id: Id) returns (path: seq<Id>)
    requires 1 <= id <= n
    ensures RowAncestry(s, n, path) && path[0] == id
    decreases |Earlier(s, n, id)|
  {
    path := [id];
    if ParentFirst(s, n, id) {
      EarlierShrinks(s, n, id);
      var rest := RowAncestryOf(s, n, ParentId(s, n, id));
      path := [id] + rest;
    }
  }

  lemma BuiltFollows(rules: Rules, s: Store, n: nat, e: map<Id, Derived>, id: Id)
    requires Built(rules, s, n, e) && 1 <= id <= n
    ensures id in e
    ensures if !ParentFirst(s, n, id) then Follows(rules, Rec(s, id), 0, 0, None, e[id])
            else ParentId(s, n, id) in e && var p := e[ParentId(s, n, id)];
                 Follows(rules, Rec(s, id), p.trust, p.checksum, p.modifierTime, e[id])
  {
    hide Derive, Follows;
    assert BuiltAt(rules, s, n, e, id);
    DeriveFollows(rules, Rec(s, id), if ParentFirst(s, n, id) then e[ParentId(s, n, id)] else DEFAULT_DERIVED);
  }

  lemma {:induction false} BuiltChained(rules: Rules, s: Store, n: nat, e: map<Id, Derived>, path: seq<Id>)
    requires Built(rules, s, n, e) && RowAncestry(s, n, path)
    ensures Chained(rules, s, e, path)
  {
    hide Follows;
    BuiltFollows(rules, s, n, e, path[0]);
    if |path| > 1 { BuiltChained(rules, s, n, e, path[1..]); }
  }

  /** The same of a pass in row order, on any store; the ancestry ends where a parent is missing or sorts later. */
  lemma BuiltMeaning(rules: Rules, s: Store, n: nat, e: map<Id, Derived>, path: seq<Id>)
    requires Built(rules, s, n, e) && RowAncestry(s, n, path)
    ensures path[0] in e
    ensures e[path[0]].trust == TrustSum(rules, s, path)
                                % 0x1_0000_0000_0000_0000_0000_0000_0000_0000_0000_0000_0000_0000_0000_0000_0000_0000
    ensures NearestTime(s, path, e[path[0]].modifierTime)
    ensures |path| > 1 ==>
              path[1] in e && IsChecksum(rules, Rec(s, path[0]), Some(e[path[1]].checksum), e[path[0]].checksum)
    ensures |path| == 1 ==>
              if Rec(s, path[0]).hashPrev != 0 then IsChecksum(rules, Rec(s, path[0]), Some(0), e[path[0]].checksum)
              else if rules.guardsRoots && Rec(s, path[0]).hash != rules.genesis then e[path[0]].checksum == 0
              else IsChecksum(rules, Rec(s, path[0]), None, e[path[0]].checksum)
  {
    hide TrustSum, NearestTime, Built, ParentId;
    BuiltChained(rules, s, n, e, path);
    TrustAlong(rules, s, e, path);
    TimeAlong(rules, s, e, path);
  }

  // ---------------------------------------------------------------- what a checksum does not depend on

  /** The same records, except for the hashProof of proof-of-work records. */
  ghost predicate SameStakes(s: Store, s': Store, n: nat) {
    forall id: Id :: 1 <= id <= n ==>
      && Rec(s', id) == Rec(s, id).(hashProof := Rec(s', id).hashProof)
      && (Rec(s, id).nFlags % 2 == 1 ==> Rec(s', id).hashProof == Rec(s, id).hashProof)
  }

  lemma SameParent(s: Store, s': Store, n: nat, id: Id)
    requires SameStakes(s, s', n) && UniqueHashes(s, n) && 1 <= id <= n
    ensures ParentId(s', n, id) == ParentId(s, n, id) && UniqueHashes(s', n)
  {
    var h := Rec(s, id).hashPrev;
    var p, p' := ParentId(s, n, id), ParentId(s', n, id);
    if p != 0 { assert Holds(s, n, h, p) && Holds(s', n, h, p); }
    if p' != 0 { assert Holds(s', n, h, p') && Holds(s, n, h, p'); }
  }

  lemma SameChecksum(rules: Rules, r: Record, r': Record, parent: Option<nat>, c: nat, c': nat)
    requires r' == r.(hashProof := r'.hashProof) && (r.nFlags % 2 == 1 ==> r'.hashProof == r.hashProof)
    requires IsChecksum(rules, r, parent, c) && IsChecksum(rules, r', parent, c')
    ensures c == c'
  {
  }

  lemma {:induction false} SolutionChecksum(rules: Rules, s: Store, s': Store, n: nat, m: map<Id, Derived>,
                                            m': map<Id, Derived>, id: Id, k: nat)
    requires SameStakes(s, s', n) && UniqueHashes(s, n) && Grounded(s, n, id, k)
    requires IsSolution(rules, s, n, m) && IsSolution(rules, s', n, m')
    ensures m[id].checksum == m'[id].checksum
    decreases k
  {
    hide IsSolution, IsChecksum, OwnTrust;
    SolutionFollows(rules, s, n, m, id);
    SolutionFollows(rules, s', n, m', id);
    SameParent(s, s', n, id);
    var r, r' := Rec(s, id), Rec(s', id);
    if !IsRoot(s, id) {
      var p := ParentId(s, n, id);
      SolutionChecksum(rules, s, s', n, m, m', p, k - 1);
      SameChecksum(rules, r, r', Some(m[p].checksum), m[id].checksum, m'[id].checksum);
    } else if !(rules.guardsRoots && r.hash != rules.genesis) {
      SameChecksum(rules, r, r', None, m[id].checksum, m'[id].checksum);
    }
  }

  lemma {:induction false} BuiltChecksum(rules: Rules, s: Store, s': Store, n: nat, e: map<Id, Derived>,
                                         e': map<Id, Derived>, id: Id)
    requires SameStakes(s, s', n) && UniqueHashes(s, n) && 1 <= id <= n
    requires Built(rules, s, n, e) && Built(rules, s', n, e')
    ensures e[id].checksum == e'[id].checksum
    decreases |Earlier(s, n, id)|
  {
    hide Built, IsChecksum, OwnTrust, Earlier;
    BuiltFollows(rules, s, n, e, id);
    BuiltFollows(rules, s', n, e', id);
    SameParent(s, s', n, id);
    ParentInRange(s, n, id);
    var r, r' := Rec(s, id), Rec(s', id);
    var p := ParentId(s, n, id);
    assert ParentFirst(s', n, id) == ParentFirst(s, n, id);
    if ParentFirst(s, n, id) {
      EarlierShrinks(s, n, id);
      BuiltChecksum(rules, s, s', n, e, e', p);
      SameChecksum(rules, r, r', Some(e[p].checksum), e[id].checksum, e'[id].checksum);
    } else if r.hashPrev != 0 {
      SameChecksum(rules, r, r', Some(0), e[id].checksum, e'[id].checksum);
    } else if !(rules.guardsRoots && r.hash != rules.genesis) {
      SameChecksum(rules, r, r', None, e[id].checksum, e'[id].checksum);
    }
  }

  /** Changing the hashProof of proof-of-work records changes no checksum, in a solution or in a pass. */
  lemma WorkProofsUnhashed(rules: Rules, s: Store, s': Store, n: nat, m: map<Id, Derived>, m': map<Id, Derived>)
    requires SameStakes(s, s', n) && UniqueHashes(s, n)
    requires || (&& IsSolution(rules, s, n, m) && IsSolution(rules, s', n, m')
                 && forall id :: 1 <= id <= n ==> Reaches(s, n, id))
             || (Built(rules, s, n, m) && Built(rules, s', n, m'))
    ensures forall id: Id :: 1 <= id <= n ==> id in m && id in m' && m[id].checksum == m'[id].checksum
  {
    forall id: Id | 1 <= id <= n ensures id in m && id in m' && m[id].checksum == m'[id].checksum {
      if Built(rules, s, n, m) && Built(rules, s', n, m') {
        BuiltChecksum(rules, s, s', n, m, m', id);
      } else {
        assert Reaches(s, n, id);
        var k: nat :| Grounded(s, n, id, k);
        SolutionChecksum(rules, s, s', n, m, m', id, k);
      }
    }
  }
}
