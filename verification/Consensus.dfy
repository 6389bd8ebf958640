/** Fork choice: where a new block goes, when the chain is reorganised, and the pool of blocks without parents. */
module Consensus {
  import opened Options
  import opened Transactions
  import opened ChainTables
  import opened Chain

  // ----- walking back from two blocks -----

  /** The j-th ancestor of a hash, as long as all blocks on the way are stored. */
  function Ancestor(blocks: map<Hash, Block>, h: Hash, j: nat): Option<Hash>
    decreases j
  {
    if j == 0 then Some(h)
    else
      var a := Ancestor(blocks, h, j - 1);
      if a.None? || a.value !in blocks then None else Some(blocks[a.value].prev)
  }

  /** After n steps back the two walks meet for the first time. */
  ghost predicate MeetAt(blocks: map<Hash, Block>, branch: Hash, main: Hash, n: nat) {
    && Ancestor(blocks, branch, n).Some? && Ancestor(blocks, branch, n) == Ancestor(blocks, main, n)
    && forall j :: 0 <= j < n ==> Ancestor(blocks, branch, j) != Ancestor(blocks, main, j)
  }

  lemma {:induction false} AncestorHeight(H: Hash -> nat, db: Db, h: Hash, j: nat)
    requires BlocksConsistent(H, db) && Ancestor(db.blocks, h, j).Some?
    ensures H(Ancestor(db.blocks, h, j).value) + j == H(h)
    decreases j
  {
    if j > 0 {
      AncestorHeight(H, db, h, j - 1);
    }
  }

  /** Walking back from the tip follows the main chain. */
  lemma {:induction false} AncestorOnMain(H: Hash -> nat, exec: Exec, db: Db, j: nat)
    requires Sound(H, exec, db) && db.MaxHeight() >= Low + j
    ensures db.MaxHeight() in db.hashAt && db.MaxHeight() - j in db.hashAt
    ensures Ancestor(db.blocks, db.hashAt[db.MaxHeight()], j) == Some(db.hashAt[db.MaxHeight() - j])
    decreases j
  {
    assert Linked(exec, db, db.MaxHeight());
    if j > 0 {
      AncestorOnMain(H, exec, db, j - 1);
      assert Linked(exec, db, db.MaxHeight() - j + 1);
    }
  }

  lemma BlockHeight(H: Hash -> nat, db: Db, h: Hash)
    requires BlocksConsistent(H, db) && h in db.blocks
    ensures db.blocks[h].height == H(h)
  {
  }

  lemma AncestorSelf(blocks: map<Hash, Block>, h: Hash)
    ensures Ancestor(blocks, h, 0) == Some(h)
  {
  }

  lemma AncestorUp(blocks: map<Hash, Block>, h: Hash, j: nat)
    requires j > 0 && Ancestor(blocks, h, j - 1).Some? && Ancestor(blocks, h, j - 1).value in blocks
    ensures Ancestor(blocks, h, j) == Some(blocks[Ancestor(blocks, h, j - 1).value].prev)
  {
  }

  lemma AncestorEnds(blocks: map<Hash, Block>, h: Hash, j: nat)
    requires Ancestor(blocks, h, j).Some? && Ancestor(blocks, h, j).value !in blocks
    ensures Ancestor(blocks, h, j + 1).None?
  {
  }

  lemma ParentStored(H: Hash -> nat, db: Db, h: Hash)
    requires BlocksConsistent(H, db) && Rooted(db) && h in db.blocks && H(h) > Low
    ensures db.blocks[h].prev in db.blocks
  {
    BlockHeight(H, db, h);
  }

  /** While every stored block above the first height has a stored parent, the walk reaches the first height. */
  lemma {:induction false} AncestorStored(H: Hash -> nat, db: Db, h: Hash, j: nat)
    requires BlocksConsistent(H, db) && Rooted(db) && h in db.blocks && H(h) >= Low + j
    ensures Ancestor(db.blocks, h, j).Some? && Ancestor(db.blocks, h, j).value in db.blocks
    decreases j
  {
    hide BlocksConsistent, Rooted, Ancestor;
    if j == 0 {
      AncestorSelf(db.blocks, h);
    } else {
      AncestorStored(H, db, h, j - 1);
      AncestorHeight(H, db, h, j - 1);
      var a := Ancestor(db.blocks, h, j - 1).value;
      ParentStored(H, db, a);
      AncestorUp(db.blocks, h, j);
    }
  }

  ghost function FirstMeeting(blocks: map<Hash, Block>, a: Hash, b: Hash, i: nat, d: nat): (n: nat)
    requires i <= d && Ancestor(blocks, a, d) == Ancestor(blocks, b, d)
    requires forall j :: 0 <= j < i ==> Ancestor(blocks, a, j) != Ancestor(blocks, b, j)
    ensures n <= d && Ancestor(blocks, a, n) == Ancestor(blocks, b, n)
    ensures forall j :: 0 <= j < n ==> Ancestor(blocks, a, j) != Ancestor(blocks, b, j)
    decreases d - i
  {
    if Ancestor(blocks, a, i) == Ancestor(blocks, b, i) then i else FirstMeeting(blocks, a, b, i + 1, d)
  }

  lemma {:induction false} AncestorsAgree(blocks: map<Hash, Block>, a: Hash, b: Hash, n: nat, d: nat)
    requires n <= d && Ancestor(blocks, a, n) == Ancestor(blocks, b, n)
    ensures Ancestor(blocks, a, d) == Ancestor(blocks, b, d)
    decreases d
  {
    if n < d {
      AncestorsAgree(blocks, a, b, n, d - 1);
    }
  }

  /** A branch tip as high as the main tip meets the main chain within it if and only if its ancestor at the first
      height is the main chain's first block. */
  lemma BranchesMeet(H: Hash -> nat, exec: Exec, db: Db, branch: Hash)
    requires Sound(H, exec, db) && Rooted(db) && branch in db.blocks && H(branch) == db.MaxHeight() >= Low
    ensures db.MaxHeight() in db.hashAt && Low in db.hashAt
    ensures Ancestor(db.blocks, branch, db.MaxHeight() - Low) == Some(db.hashAt[Low]) <==>
              exists n :: 0 <= n <= db.MaxHeight() - Low && MeetAt(db.blocks, branch, db.hashAt[db.MaxHeight()], n)
  {
    hide Sound, Linked, Rooted, Ancestor;
    var d: nat := db.MaxHeight() - Low;
    AncestorOnMain(H, exec, db, d);
    var tip := db.hashAt[db.MaxHeight()];
    if Ancestor(db.blocks, branch, d) == Some(db.hashAt[Low]) {
      var n := FirstMeeting(db.blocks, branch, tip, 0, d);
      SoundConsistent(H, exec, db);
      AncestorStored(H, db, branch, n);
      assert MeetAt(db.blocks, branch, tip, n);
    }
    if n: nat :| n <= d && MeetAt(db.blocks, branch, tip, n) {
      AncestorsAgree(db.blocks, branch, tip, n, d);
    }
  }

  /** The main chain's first block is the only one stored at the first height. */
  ghost predicate OneRoot(db: Db) {
    forall h :: h in db.blocks && db.blocks[h].height == Low ==> Low in db.hashAt && db.hashAt[Low] == h
  }

  /** With one block at the first height every branch meets the main chain. */
  lemma OneRootMeets(H: Hash -> nat, exec: Exec, db: Db, branch: Hash)
    requires Sound(H, exec, db) && Rooted(db) && branch in db.blocks && H(branch) == db.MaxHeight() >= Low
    requires OneRoot(db)
    ensures db.MaxHeight() in db.hashAt
    ensures exists n :: 0 <= n <= db.MaxHeight() - Low && MeetAt(db.blocks, branch, db.hashAt[db.MaxHeight()], n)
  {
    hide Sound, Rooted, Ancestor, MeetAt;
    var d: nat := db.MaxHeight() - Low;
    SoundConsistent(H, exec, db);
    AncestorStored(H, db, branch, d);
    AncestorHeight(H, db, branch, d);
    BranchesMeet(H, exec, db, branch);
  }

  // ----- what a block has to meet -----

  /** A child of the tip is accepted: its global difficulty does not exceed the tip's, except after an adjustment, it
      passes CheckBlockRegular, has the next height, executes, and carries a root that fits. */
  ghost predicate Extendable(exec: Exec, regular: Regular, db: Db, b: Block, tip: Block) {
    var r := exec(db.CurrentRoot(), b.height, b.body);
    && (b.height % 10 != 2 && b.height > InitHeight + 1 ==> tip.body.globalDifficulty >= b.body.globalDifficulty)
    && (b.height != 1 ==> regular(db, db, b))
    && b.height == db.MaxHeight() + 1 && b.height >= Low && r.0
    && (b.height > Low ==> b.snapRoot == db.CurrentRoot() || b.snapRoot == r.1)
  }

  /** A block of the main chain, from the first height on. */
  ghost predicate OnMainAt(db: Db, g: Hash) {
    exists k :: Low <= k <= db.MaxHeight() && k in db.hashAt && db.hashAt[k] == g
  }

  /** The walk back from h passes g. */
  ghost predicate Reaches(blocks: map<Hash, Block>, h: Hash, g: Hash) {
    exists j: nat :: Ancestor(blocks, h, j) == Some(g)
  }

  /** Whatever main-chain block the walk back from h passes, it is on the main chain still. */
  ghost predicate Keeps(db: Db, db': Db, h: Hash) {
    forall g :: OnMainAt(db, g) && Reaches(db.blocks, h, g) ==> OnMainAt(db', g)
  }

  /** Stored blocks stay stored, with their parents. */
  ghost predicate SameParents(blocks: map<Hash, Block>, blocks': map<Hash, Block>) {
    forall h :: h in blocks ==> h in blocks' && blocks'[h].prev == blocks[h].prev
  }

  // ----- the pool of blocks without a stored parent -----

  datatype Orphan = Orphan(block: Block, expiration: int)

  type Orphans = map<Hash, Orphan>
  type Waiting = map<Hash, seq<Orphan>>

  /** An hour, in seconds. */
  const OrphanLife: int := 3600
  const MaxEqualBlockWeight: nat := 10

  ghost predicate DistinctHashes(s: seq<Orphan>) {
    forall i, j :: 0 <= i < j < |s| ==> s[i].block.hash != s[j].block.hash
  }

  /** The two tables of the pool agree, and the blocks in it are not stored. */
  ghost predicate PoolSound(H: Hash -> nat, orphans: Orphans, waiting: Waiting, blocks: set<Hash>) {
    && (forall h :: h in orphans ==> orphans[h].block.hash == h && Consistent(H, orphans[h].block) && h !in blocks)
    && (forall p :: p in waiting ==> waiting[p] != [] && DistinctHashes(waiting[p]))
    && (forall p, i :: p in waiting && 0 <= i < |waiting[p]| ==>
          var o := waiting[p][i]; o.block.prev == p && o.block.hash in orphans && orphans[o.block.hash] == o)
    && (forall h :: h in orphans ==> orphans[h].block.prev in waiting && orphans[h] in waiting[orphans[h].block.prev])
  }

  function Without(s: seq<Orphan>, h: Hash): (r: seq<Orphan>)
    ensures forall o :: o in r <==> o in s && o.block.hash != h
    ensures |r| <= |s|
  {
    if s == [] then []
    else if s[0].block.hash == h then Without(s[1..], h)
    else [s[0]] + Without(s[1..], h)
  }

  lemma {:induction false} WithoutDistinct(s: seq<Orphan>, h: Hash)
    requires DistinctHashes(s)
    ensures DistinctHashes(Without(s, h))
  {
    if s != [] {
      WithoutDistinct(s[1..], h);
      var r := Without(s[1..], h);
      assert forall i :: 0 <= i < |r| ==> r[i] in s[1..];
    }
  }

  lemma WithoutFirst(s: seq<Orphan>, h: Hash)
    requires s != []
    ensures Without(s, h) == (if s[0].block.hash == h then [] else [s[0]]) + Without(s[1..], h)
  {
  }

  lemma WithoutStep(list: seq<Orphan>, i: int, h: Hash)
    requires 0 <= i < |list|
    ensures list[i].block.hash == h ==>
              var rest := list[..i] + list[i + 1..];
              rest[..i] + Without(rest[i..], h) == list[..i] + Without(list[i..], h)
    ensures list[i].block.hash != h ==>
              list[..i + 1] + Without(list[i + 1..], h) == list[..i] + Without(list[i..], h)
  {
    var rest := list[..i] + list[i + 1..];
    assert rest[..i] == list[..i] && rest[i..] == list[i + 1..];
    WithoutFirst(list[i..], h);
    assert list[i..][0] == list[i] && list[i..][1..] == list[i + 1..];
    hide Without;
    if list[i].block.hash != h {
      assert list[..i + 1] == list[..i] + [list[i]];
      assert list[..i + 1] + Without(list[i + 1..], h) == list[..i] + ([list[i]] + Without(list[i + 1..], h));
    }
  }

  lemma WithoutEmpty(s: seq<Orphan>, h: Hash)
    requires s == []
    ensures Without(s, h) == []
  {
  }

  function WaitingWithout(waiting: Waiting, o: Orphan): Waiting {
    var p := o.block.prev;
    var rest := Without(if p in waiting then waiting[p] else [], o.block.hash);
    if rest == [] then waiting - {p} else waiting[p := rest]
  }

  /** The blocks waiting for a hash. */
  function Listed(waiting: Waiting, p: Hash): seq<Orphan> {
    if p in waiting then waiting[p] else []
  }

  /** The listed orphans without those outdated that have been looked at, in the same order. */
  function Staying(s: seq<Orphan>, todo: set<Hash>, now: int): seq<Orphan> {
    if s == [] then []
    else (if s[0].block.hash in todo || s[0].expiration >= now then [s[0]] else []) + Staying(s[1..], todo, now)
  }

  lemma StayingFirst(s: seq<Orphan>, todo: set<Hash>, now: int)
    requires s != []
    ensures Staying(s, todo, now)
              == (if s[0].block.hash in todo || s[0].expiration >= now then [s[0]] else []) + Staying(s[1..], todo, now)
  {
  }

  lemma {:induction false} StayingAll(s: seq<Orphan>, todo: set<Hash>, now: int)
    requires forall x :: x in s ==> x.block.hash in todo
    ensures Staying(s, todo, now) == s
  {
    if s != [] {
      StayingAll(s[1..], todo, now);
    }
  }

  lemma {:induction false} StayingStep(s: seq<Orphan>, todo: set<Hash>, now: int, h: Hash)
    ensures (forall x :: x in s && x.block.hash == h ==> x.expiration >= now) ==>
              Staying(s, todo - {h}, now) == Staying(s, todo, now)
    ensures (forall x :: x in s && x.block.hash == h ==> x.expiration < now) ==>
              Staying(s, todo - {h}, now) == Without(Staying(s, todo, now), h)
  {
    if s != [] {
      StayingStep(s[1..], todo, now, h);
      var rest := Staying(s[1..], todo, now);
      StayingFirst(s, todo, now);
      StayingFirst(s, todo - {h}, now);
      WithoutFirst([s[0]] + rest, h);
      assert ([s[0]] + rest)[1..] == rest && [] + rest == rest && s[0] in s;
      assert forall x :: x in s[1..] ==> x in s;
      hide Staying, Without;
    }
  }

  /** The outdated orphans that are not still to be looked at have gone, and the others wait in the same order. */
  ghost predicate Swept(waiting: Waiting, waiting': Waiting, todo: set<Hash>, now: int) {
    forall p :: Listed(waiting', p) == Staying(Listed(waiting, p), todo, now)
  }

  /** One turn of the loop that drops the outdated orphans. */
  lemma TurnOfKeys(H: Hash -> nat, orphans: Orphans, waiting: Waiting, waiting': Waiting, blocks: set<Hash>,
                   todo: set<Hash>, now: int, h: Hash)
    requires PoolSound(H, orphans, waiting, blocks) && h in orphans
    requires Swept(waiting, waiting', todo, now)
    ensures orphans[h].expiration >= now ==> Swept(waiting, waiting', todo - {h}, now)
    ensures orphans[h].expiration < now ==> Swept(waiting, WaitingWithout(waiting', orphans[h]), todo - {h}, now)
  {
    hide Staying, Without;
    forall p
      ensures orphans[h].expiration >= now ==> Listed(waiting', p) == Staying(Listed(waiting, p), todo - {h}, now)
      ensures orphans[h].expiration < now ==>
                Listed(WaitingWithout(waiting', orphans[h]), p) == Staying(Listed(waiting, p), todo - {h}, now)
    {
      var s := Listed(waiting, p);
      forall x | x in s && x.block.hash == h ensures x == orphans[h] && p == orphans[h].block.prev {
      }
      StayingStep(s, todo, now, h);
      ListedWithout(waiting', orphans[h], p);
    }
  }

  lemma SweptLists(waiting: Waiting, waiting': Waiting, now: int)
    requires Swept(waiting, waiting', {}, now)
    ensures forall p :: Listed(waiting', p) == Staying(Listed(waiting, p), {}, now)
  {
    hide Staying, Listed;
  }

  lemma WholeListed(H: Hash -> nat, orphans: Orphans, waiting: Waiting, blocks: set<Hash>, now: int)
    requires PoolSound(H, orphans, waiting, blocks)
    ensures Swept(waiting, waiting, orphans.Keys, now)
  {
    forall p ensures Listed(waiting, p) == Staying(Listed(waiting, p), orphans.Keys, now) {
      StayingAll(Listed(waiting, p), orphans.Keys, now);
    }
  }

  lemma ListedWithout(waiting: Waiting, o: Orphan, p: Hash)
    ensures Listed(WaitingWithout(waiting, o), p)
              == if p == o.block.prev then Without(Listed(waiting, p), o.block.hash) else Listed(waiting, p)
  {
  }

  lemma RemovedSound(H: Hash -> nat, orphans: Orphans, waiting: Waiting, blocks: set<Hash>, o: Orphan)
    requires PoolSound(H, orphans, waiting, blocks) && o.block.hash in orphans && orphans[o.block.hash] == o
    ensures PoolSound(H, orphans - {o.block.hash}, WaitingWithout(waiting, o), blocks)
  {
    var p := o.block.prev;
    var waiting': Waiting := WaitingWithout(waiting, o);
    WithoutDistinct(waiting[p], o.block.hash);
    forall q: Hash, i: int | q in waiting' && 0 <= i < |waiting'[q]|
      ensures var x: Orphan := waiting'[q][i];
              x.block.prev == q && x.block.hash in orphans && x.block.hash != o.block.hash && orphans[x.block.hash] == x
    {
      var x := waiting'[q][i];
      assert x in waiting[q];
    }
  }

  lemma AddedSound(H: Hash -> nat, orphans: Orphans, waiting: Waiting, blocks: set<Hash>, o: Orphan)
    requires PoolSound(H, orphans, waiting, blocks) && o.block.hash !in orphans && o.block.hash !in blocks
    requires Consistent(H, o.block)
    ensures var p := o.block.prev;
            PoolSound(H, orphans[o.block.hash := o],
                      waiting[p := (if p in waiting then waiting[p] else []) + [o]], blocks)
  {
    var p := o.block.prev;
    var old' := if p in waiting then waiting[p] else [];
    var waiting': Waiting := waiting[p := old' + [o]];
    forall i | 0 <= i < |old'| ensures old'[i].block.hash != o.block.hash {
      assert old'[i].block.hash in orphans;
    }
    var orphans' := orphans[o.block.hash := o];
    forall h | h in orphans' ensures orphans'[h].block.prev in waiting' && orphans'[h] in waiting'[orphans'[h].block.prev] {
      if h == o.block.hash {
        assert (old' + [o])[|old'|] == o;
      } else if orphans[h].block.prev == p {
        assert orphans[h] in old';
      }
    }
    forall q, i | q in waiting' && 0 <= i < |waiting'[q]|
      ensures var x := waiting'[q][i]; x.block.prev == q && x.block.hash in orphans' && orphans'[x.block.hash] == x
    {
      if q == p && i < |old'| {
        assert old'[i] == waiting[p][i];
      }
    }
  }

  lemma {:induction false} AncestorStays(blocks: map<Hash, Block>, h: Hash, j: nat, k: nat)
    requires j <= k && Ancestor(blocks, h, j).None?
    ensures Ancestor(blocks, h, k).None?
    decreases k
  {
    if j < k {
      AncestorStays(blocks, h, j, k - 1);
    }
  }

  lemma NeverMeet(blocks: map<Hash, Block>, branch: Hash, main: Hash, i: nat)
    requires Ancestor(blocks, branch, i + 1).None? || Ancestor(blocks, main, i + 1).None?
    requires forall j :: 0 <= j <= i ==> Ancestor(blocks, branch, j) != Ancestor(blocks, main, j)
    ensures forall n :: !MeetAt(blocks, branch, main, n)
  {
    hide Ancestor;
    forall n | n > i ensures !MeetAt(blocks, branch, main, n) {
      if Ancestor(blocks, branch, i + 1).None? {
        AncestorStays(blocks, branch, i + 1, n);
      } else {
        AncestorStays(blocks, main, i + 1, n);
      }
    }
  }

  /** The path from a block back to the meeting point. */
  ghost predicate PathOf(blocks: map<Hash, Block>, branch: Hash, path: seq<Hash>) {
    forall j :: 0 <= j < |path| ==> path[j] in blocks && Ancestor(blocks, branch, j) == Some(path[j])
  }

  lemma PathStart(blocks: map<Hash, Block>, branch: Hash, main: Hash)
    ensures Ancestor(blocks, branch, 0) == Some(branch) && Ancestor(blocks, main, 0) == Some(main)
    ensures PathOf(blocks, branch, [])
  {
  }

  lemma PathStep(blocks: map<Hash, Block>, branch: Hash, h: Hash, path: seq<Hash>)
    requires PathOf(blocks, branch, path) && Ancestor(blocks, branch, |path|) == Some(h) && h in blocks
    ensures PathOf(blocks, branch, path + [h]) && Ancestor(blocks, branch, |path| + 1) == Some(blocks[h].prev)
  {
    AncestorUp(blocks, branch, |path| + 1);
    hide Ancestor;
  }

  class BlockChain {
    const bc: Blockchain
    var orphans: Orphans
    var prevOrphans: Waiting

    ghost predicate Valid()
      reads this, bc
    {
      bc.Valid() && Rooted(bc.db) && PoolSound(bc.H, orphans, prevOrphans, bc.db.blocks.Keys)
    }

    constructor (bc: Blockchain)
      requires bc.Valid() && Rooted(bc.db)
      ensures Valid() && this.bc == bc && orphans == map[]
    {
      this.bc := bc;
      orphans := map[];
      prevOrphans := map[];
    }

    /** FindBranchPoint: the hashes from the branch tip down to the child of the common ancestor, and the height of
        that child; it fails exactly when the two walks never meet within the stored blocks. */
    method FindBranchPoint(prevHash: Hash, tipHash: Hash) returns (r: Option<(seq<Hash>, nat)>)
      requires BlocksConsistent(bc.H, bc.db)
      ensures r.Some? ==>
                && MeetAt(bc.db.blocks, prevHash, tipHash, |r.value.0|) && PathOf(bc.db.blocks, prevHash, r.value.0)
                && (r.value.0 != [] ==> r.value.1 == bc.db.blocks[r.value.0[|r.value.0| - 1]].height)
      ensures r.None? ==> forall n :: !MeetAt(bc.db.blocks, prevHash, tipHash, n)
    {
      hide Ancestor;
      ghost var blocks := bc.db.blocks;
      var hashes: seq<Hash> := [];
      PathStart(blocks, prevHash, tipHash);
      var main, branch := tipHash, prevHash;
      var height := 0;
      while main != branch
        invariant Ancestor(blocks, prevHash, |hashes|) == Some(branch)
        invariant Ancestor(blocks, tipHash, |hashes|) == Some(main)
        invariant PathOf(blocks, prevHash, hashes)
        invariant forall j :: 0 <= j < |hashes| ==> Ancestor(blocks, prevHash, j) != Ancestor(blocks, tipHash, j)
        invariant hashes != [] ==> height == blocks[hashes[|hashes| - 1]].height
        decreases bc.H(main)
      {
        if main !in bc.db.blocks {
          AncestorEnds(blocks, tipHash, |hashes|);
          NeverMeet(blocks, prevHash, tipHash, |hashes|);
          return None;
        }
        if branch !in bc.db.blocks {
          AncestorEnds(blocks, prevHash, |hashes|);
          NeverMeet(blocks, prevHash, tipHash, |hashes|);
          return None;
        }
        PathStep(blocks, prevHash, branch, hashes);
        AncestorUp(blocks, tipHash, |hashes| + 1);
        hashes := hashes + [branch];
        main := bc.db.blocks[main].prev;
        height := bc.db.blocks[branch].height;
        branch := bc.db.blocks[branch].prev;
      }
      return Some((hashes, height));
    }

    /** The database accepts the next n commits. */
    predicate Commits(n: nat)
      reads bc
    {
      forall i :: bc.writes <= i < bc.writes + n ==> bc.disk(i)
    }

    /** maybeAcceptBlock: the block extends the main chain, or its branch replaces the main chain's end, or it is
        stored aside, or it is refused. */
    method MaybeAcceptBlock(b: Block) returns (ok: bool, main: bool)
      requires bc.Valid() && Rooted(bc.db) && Consistent(bc.H, b) && b.hash !in bc.db.blocks
      modifies bc
      ensures bc.Valid() && Rooted(bc.db)
      ensures main ==> ok && OnTop(old(bc.db), bc.db, b)
      ensures !main ==> SameMain(old(bc.db), bc.db) && bc.sdb == old(bc.sdb)
      ensures old(bc.db.blocks.Keys) <= bc.db.blocks.Keys <= old(bc.db.blocks.Keys) + {b.hash}
      ensures ok && old(bc.disk(bc.writes)) ==> b.hash in bc.db.blocks
      ensures old(bc.db.Tip()).None? ==> !ok && bc.db == old(bc.db)
      ensures old(bc.db.Tip().Some? && b.prev == bc.db.Tip().value.hash) ==>
                && main == ok == old(Extendable(bc.exec, bc.regular, bc.db, b, bc.db.Tip().value) && bc.disk(bc.writes))
                && bc.db == if ok then Extended(old(bc.db), b, bc.exec(old(bc.db).CurrentRoot(), b.height, b.body).1)
                            else old(bc.db)
      ensures old(bc.db.Tip().Some? && b.prev != bc.db.Tip().value.hash
                  && (b.prev !in bc.db.blocks || bc.db.blocks[b.prev].height > bc.db.MaxHeight())) ==>
                !ok && bc.db == old(bc.db)
      ensures old(bc.db.Tip().Some? && b.prev != bc.db.Tip().value.hash
                  && b.prev in bc.db.blocks && bc.db.blocks[b.prev].height == bc.db.MaxHeight()) ==>
                var tip := old(bc.db.Tip().value);
                && main == ok && (ok ==> exists path :: Replaces(bc.exec, bc.regular, old(bc.db), bc.db, b, tip, path))
                && (old(Commits(2)) && CanReplace(bc.exec, bc.regular, old(bc.db), b, tip) ==> ok)
                && (!ok && old(Commits(2)) ==>
                      bc.db == if Meets(old(bc.db), b, tip) then old(bc.db)
                               else old(bc.db).(blocks := old(bc.db).blocks[b.hash := b]))
      ensures old(bc.db.Tip().Some? && b.prev != bc.db.Tip().value.hash
                  && b.prev in bc.db.blocks && bc.db.blocks[b.prev].height < bc.db.MaxHeight()) ==>
                && ok && !main
                && bc.db == if old(bc.disk(bc.writes)) then old(bc.db).(blocks := old(bc.db).blocks[b.hash := b])
                            else old(bc.db)
      ensures SameParents(old(bc.db.blocks), bc.db.blocks) && Keeps(old(bc.db), bc.db, b.prev)
      ensures b.hash in bc.db.blocks ==> bc.db.blocks[b.hash].prev == b.prev
      ensures !ok ==> bc.db.blocks == old(bc.db.blocks) || bc.db.blocks == old(bc.db.blocks)[b.hash := b]
      ensures bc.writes >= old(bc.writes)
    {
      hide Sound, Rooted, OnTop, Replaces, CanReplace, Keeps, SameParents, Extendable, Extended, Meets;
      UncleParents(bc.db, b);
      SameMainKeeps(bc.db, bc.db, b.prev);
      var tip := bc.db.Tip();
      if tip.None? {
        return false, false;
      }
      TipFacts(bc.H, bc.exec, bc.db);
      if b.prev == tip.value.hash {
        ok := TryOnTop(b, tip.value);
        return ok, ok;
      }
      var parent := bc.db.BlockByHash(b.prev);
      if parent.None? {
        return false, false;
      }
      StoredFacts(bc.H, bc.exec, bc.db, b.prev);
      if parent.value.height == tip.value.height {
        ok := TryBranch(b, parent.value, tip.value);
        return ok, ok;
      } else if parent.value.height < tip.value.height {
        UncleRooted(bc.db, b);
        ghost var db0 := bc.db;
        bc.AddUncleBlock(b);
        SameMainKeeps(db0, bc.db, b.prev);
        return true, false;
      } else {
        return false, false;
      }
    }

    /** The branch of maybeAcceptBlock for a child of the tip. */
    method TryOnTop(b: Block, tip: Block) returns (ok: bool)
      requires bc.Valid() && Rooted(bc.db) && Consistent(bc.H, b) && b.hash !in bc.db.blocks
      requires bc.db.Tip() == Some(tip) && b.prev == tip.hash
      modifies bc
      ensures bc.Valid() && Rooted(bc.db)
      ensures ok == old(Extendable(bc.exec, bc.regular, bc.db, b, tip) && bc.disk(bc.writes))
      ensures SameParents(old(bc.db.blocks), bc.db.blocks) && Keeps(old(bc.db), bc.db, b.prev)
      ensures ok ==> OnTop(old(bc.db), bc.db, b)
      ensures ok ==> bc.db == Extended(old(bc.db), b, bc.exec(old(bc.db).CurrentRoot(), b.height, b.body).1)
      ensures !ok ==> bc.db == old(bc.db) && bc.sdb == old(bc.sdb)
      ensures old(bc.db.blocks.Keys) <= bc.db.blocks.Keys <= old(bc.db.blocks.Keys) + {b.hash}
      ensures ok <==> b.hash in bc.db.blocks
      ensures ok ==> bc.db.blocks[b.hash].prev == b.prev
      ensures bc.writes >= old(bc.writes)
    {
      hide Sound, Rooted, Extended, OnTop, Keeps, SameParents;
      ghost var db0 := bc.db;
      TipFacts(bc.H, bc.exec, bc.db);
      UncleParents(db0, b);
      SameMainKeeps(db0, db0, b.prev);
      if b.height % 10 != 2 && b.height > InitHeight + 1 && tip.body.globalDifficulty < b.body.globalDifficulty {
        return false;
      }
      if b.height != 1 && !bc.regular(bc.db, bc.db, b) {
        return false;
      }
      ghost var root := bc.exec(bc.sdb, b.height, b.body).1;
      ok := bc.AddBlock(b);
      if ok {
        ExtendedOnTop(db0, b, root);
        ExtendedKeeps(db0, b, root);
      }
    }

    /** The branch of maybeAcceptBlock for a block one higher than the tip on another branch. */
    method TryBranch(b: Block, parent: Block, tip: Block) returns (ok: bool)
      requires bc.Valid() && Rooted(bc.db) && Consistent(bc.H, b) && b.hash !in bc.db.blocks
      requires bc.db.Tip() == Some(tip) && bc.db.BlockByHash(b.prev) == Some(parent)
      requires parent.height == tip.height && b.prev != tip.hash
      modifies bc
      ensures bc.Valid() && Rooted(bc.db)
      ensures SameParents(old(bc.db.blocks), bc.db.blocks) && Keeps(old(bc.db), bc.db, b.prev)
      ensures ok ==> OnTop(old(bc.db), bc.db, b)
      ensures ok ==> exists path :: Replaces(bc.exec, bc.regular, old(bc.db), bc.db, b, tip, path)
      ensures old(Commits(2)) && CanReplace(bc.exec, bc.regular, old(bc.db), b, tip) ==> ok
      ensures !ok && old(Commits(2)) ==>
                bc.db == if Meets(old(bc.db), b, tip) then old(bc.db) else old(bc.db).(blocks := old(bc.db).blocks[b.hash := b])
      ensures !ok ==> SameMain(old(bc.db), bc.db) && bc.sdb == old(bc.sdb)
      ensures !ok ==> bc.db.blocks == old(bc.db.blocks) || bc.db.blocks == old(bc.db.blocks)[b.hash := b]
      ensures old(bc.db.blocks.Keys) <= bc.db.blocks.Keys <= old(bc.db.blocks.Keys) + {b.hash}
      ensures ok ==> b.hash in bc.db.blocks
      ensures b.hash in bc.db.blocks ==> bc.db.blocks[b.hash].prev == b.prev
      ensures bc.writes >= old(bc.writes)
    {
      hide CanReplace, Replaces, Sound, Rooted, MeetAt, OnTop, Reorganized, BlocksConsistent, Meets;
      hide SameMain, Ancestor, Keeps, SameParents;
      ghost var db0 := bc.db;
      TipFacts(bc.H, bc.exec, bc.db);
      StoredFacts(bc.H, bc.exec, bc.db, b.prev);
      UncleRooted(db0, b);
      bc.AddUncleBlock(b);
      UncleSame(db0, b);
      UncleParents(db0, b);
      SoundConsistent(bc.H, bc.exec, bc.db);
      var r := FindBranchPoint(parent.hash, tip.hash);
      if bc.disk(old(bc.writes)) {
        OnlyPath(bc.exec, bc.regular, db0, b, tip, r);
      }
      MeetsBy(db0, b, tip, db0.blocks[b.hash := b], if r.Some? then |r.value.0| else 0);
      if r.None? {
        SameMainKeeps(db0, bc.db, b.prev);
        return false;
      }
      ok := SwitchBranch(b, tip, r.value.0, r.value.1, db0);
    }

    /** The end of that branch: the chain is reorganised, or else the block is deleted again. */
    method SwitchBranch(b: Block, tip: Block, path: seq<Hash>, height: nat, ghost db0: Db) returns (ok: bool)
      requires bc.Valid() && Rooted(bc.db) && Rooted(db0) && Consistent(bc.H, b) && b.hash !in db0.blocks
      requires bc.db == db0.(blocks := db0.blocks[b.hash := b]) || bc.db == db0
      requires db0.Tip() == Some(tip) && bc.H(b.prev) == db0.MaxHeight() && b.prev in db0.blocks && b.prev != tip.hash
      requires db0.MaxHeight() in db0.hashAt && db0.hashAt[db0.MaxHeight()] == tip.hash
      requires MeetAt(bc.db.blocks, b.prev, tip.hash, |path|) && PathOf(bc.db.blocks, b.prev, path)
      requires path != [] ==> height == bc.db.blocks[path[|path| - 1]].height
      modifies bc
      ensures bc.Valid() && Rooted(bc.db)
      ensures ok == (Reorganized(bc.exec, bc.regular, old(bc.db), [b.hash] + path, height).Some? && old(bc.disk(bc.writes)))
      ensures SameParents(db0.blocks, bc.db.blocks) && Keeps(db0, bc.db, b.prev)
      ensures ok ==> OnTop(db0, bc.db, b) && exists p :: Replaces(bc.exec, bc.regular, db0, bc.db, b, tip, p)
      ensures !ok ==> SameMain(db0, bc.db) && bc.sdb == old(bc.sdb)
      ensures !ok ==> bc.db.blocks == db0.blocks || bc.db.blocks == db0.blocks[b.hash := b]
      ensures !ok && old(bc.disk(bc.writes)) ==> bc.db == db0
      ensures db0.blocks.Keys <= bc.db.blocks.Keys <= db0.blocks.Keys + {b.hash}
      ensures ok ==> b.hash in bc.db.blocks
      ensures b.hash in bc.db.blocks ==> bc.db.blocks[b.hash].prev == b.prev
      ensures bc.writes >= old(bc.writes)
    {
      hide Replaces, Sound, Rooted, Branch, MeetAt, PathOf, OnTop, Reorganized, BlocksConsistent;
      hide SameBlocks, SameMain, Ancestor, OnMain, Keeps, SameParents, Trace;
      ghost var db1 := bc.db;
      UncleSame(db0, b);
      UncleParents(db0, b);
      BranchFound(bc.H, bc.exec, db1, b, tip.hash, path);
      AboveMain(bc.H, bc.exec, db1, b);
      ok := bc.ReorganizeChain([b.hash] + path, height);
      if ok {
        BranchReplaced(bc.H, bc.exec, bc.regular, db0, db1, bc.db, b, tip, path, height);
      } else {
        bc.DeleteUncleBlock(b);
        UncleGone(db0, bc.db, b);
        SameTables(db0, bc.db);
        SameMainKeeps(db0, bc.db, b.prev);
      }
    }

    /** The loop of removeOrphanBlock over the list of one parent. */
    static method RemoveHash(orphans: seq<Orphan>, h: Hash) returns (list: seq<Orphan>)
      ensures list == Without(orphans, h)
    {
      hide Without;
      list := orphans;
      var i := 0;
      assert list == list[..0] + list[0..];
      assert list[..0] + Without(list[0..], h) == Without(list, h);
      while i < |list|
        invariant 0 <= i <= |list|
        invariant list[..i] + Without(list[i..], h) == Without(orphans, h)
        decreases |list| - i
      {
        WithoutStep(list, i, h);
        if list[i].block.hash == h {
          list := list[..i] + list[i + 1..];
        } else {
          i := i + 1;
        }
      }
      WithoutEmpty(list[i..], h);
      assert list[..i] + [] == list;
    }

    /** removeOrphanBlock. */
    method RemoveOrphanBlock(o: Orphan)
      requires PoolSound(bc.H, orphans, prevOrphans, bc.db.blocks.Keys)
      requires o.block.hash in orphans && orphans[o.block.hash] == o
      modifies this
      ensures PoolSound(bc.H, orphans, prevOrphans, bc.db.blocks.Keys)
      ensures orphans == old(orphans) - {o.block.hash} && prevOrphans == WaitingWithout(old(prevOrphans), o)
    {
      RemovedSound(bc.H, orphans, prevOrphans, bc.db.blocks.Keys, o);
      hide PoolSound;
      var h, p := o.block.hash, o.block.prev;
      orphans := orphans - {h};
      var list := if p in prevOrphans then prevOrphans[p] else [];
      list := RemoveHash(list, h);
      if list == [] {
        prevOrphans := prevOrphans - {p};
      } else {
        prevOrphans := prevOrphans[p := list];
      }
    }

    /** The first loop of AddOrphanBlock. */
    method DropOutdated(now: int)
      requires Valid()
      modifies this
      ensures Valid() && orphans == Kept(old(orphans), now) && Swept(old(prevOrphans), prevOrphans, {}, now)
    {
      WholeListed(bc.H, orphans, prevOrphans, bc.db.blocks.Keys, now);
      hide PoolSound, Swept, WaitingWithout, Sound, Rooted, Kept;
      var todo := orphans.Keys;
      while todo != {}
        invariant Valid() && todo <= old(orphans).Keys
        invariant forall h :: h in orphans <==> h in old(orphans) && (h in todo || old(orphans)[h].expiration >= now)
        invariant forall h :: h in orphans ==> orphans[h] == old(orphans)[h]
        invariant Swept(old(prevOrphans), prevOrphans, todo, now)
        decreases |todo|
      {
        var h :| h in todo;
        TurnOfKeys(bc.H, old(orphans), old(prevOrphans), prevOrphans, bc.db.blocks.Keys, todo, now, h);
        todo := todo - {h};
        if now > orphans[h].expiration {
          KeyOfOrphan(bc.H, orphans, prevOrphans, bc.db.blocks.Keys, h);
          RemoveOrphanBlock(orphans[h]);
        }
      }
      KeptExactly(old(orphans), orphans, now);
    }

    /** AddOrphanBlock, with the time as a parameter: outdated orphans are dropped on the way. */
    method AddOrphanBlock(b: Block, now: int)
      requires Valid() && Consistent(bc.H, b) && b.hash !in bc.db.blocks
      modifies this
      ensures Valid()
      ensures forall h :: h in orphans <==> h == b.hash || (h in old(orphans) && old(orphans)[h].expiration >= now)
      ensures forall h :: h in orphans ==>
                orphans[h] == if h in old(orphans) && old(orphans)[h].expiration >= now then old(orphans)[h]
                              else Orphan(b, now + OrphanLife)
      ensures forall p :: Listed(prevOrphans, p) == Staying(Listed(old(prevOrphans), p), {}, now)
                + if p == b.prev && !(b.hash in old(orphans) && old(orphans)[b.hash].expiration >= now)
                  then [Orphan(b, now + OrphanLife)] else []
    {
      hide PoolSound;
      DropOutdated(now);
      ghost var kept := prevOrphans;
      SweptLists(old(prevOrphans), kept, now);
      hide Staying, Swept;
      if b.hash in orphans {
        return;
      }
      AddedSound(bc.H, orphans, prevOrphans, bc.db.blocks.Keys, Orphan(b, now + OrphanLife));
      var waiting := Listed(prevOrphans, b.prev);
      prevOrphans := prevOrphans[b.prev := waiting + [Orphan(b, now + OrphanLife)]];
      orphans := orphans[b.hash := Orphan(b, now + OrphanLife)];
    }

    lemma CommitsNow()
      ensures Commits(2) ==> bc.disk(bc.writes)
    {
    }

    lemma CommitsAhead(n: nat)
      requires AllCommits(bc.disk, n) && bc.writes >= n
      ensures bc.disk(bc.writes) && Commits(2)
    {
    }

    ghost function Now(): State
      reads this, bc
    {
      State(orphans, prevOrphans, bc.db, bc.sdb, bc.writes)
    }

    /** ProcessOrphan: offers the blocks waiting for b, then those waiting for them, and so on, until one is refused.
        The list of hashes starts out with nine zero hashes behind that of b. When the commits go through, every
        orphan that has left the pool is stored, except for the one refused. */
    method ProcessOrphan(b: Block) returns (main: bool, ghost refused: Option<Hash>)
      requires Valid()
      modifies this, bc
      ensures Valid()
      ensures orphans.Keys <= old(orphans.Keys)
      ensures old(b.hash in prevOrphans) ==> orphans.Keys < old(orphans.Keys)
      ensures refused.None? ==> NobodyWaits(old(orphans), orphans, prevOrphans, b.hash, [])
      ensures refused.Some? ==> !main && refused.value in old(orphans) && refused.value !in orphans
      ensures AllCommits(bc.disk, old(bc.writes)) ==>
                forall h :: h in old(orphans) && h !in orphans && refused != Some(h) ==> h in bc.db.blocks
      ensures AllCommits(bc.disk, old(bc.writes)) && refused.Some? ==>
                Refuses(bc.exec, bc.regular, bc.db, old(orphans)[refused.value].block)
      ensures old(bc.db.blocks.Keys) <= bc.db.blocks.Keys
      ensures bc.db.MaxHeight() >= old(bc.db.MaxHeight())
      ensures main ==> bc.db.MaxHeight() > old(bc.db.MaxHeight())
      ensures old(b.hash !in prevOrphans && Hash(0) !in prevOrphans) ==>
                !main && orphans == old(orphans) && bc.db == old(bc.db) && bc.sdb == old(bc.sdb)
      ensures old(Hash(0) !in prevOrphans) ==> Keeps(old(bc.db), bc.db, b.hash)
      ensures old(b.hash in prevOrphans && prevOrphans[b.hash] != [] && bc.disk(bc.writes)
                  && bc.db.Tip().Some? && bc.db.Tip().value.hash == b.hash
                  && Extendable(bc.exec, bc.regular, bc.db, prevOrphans[b.hash][0].block, bc.db.Tip().value)) ==>
                && bc.db.MaxHeight() > old(bc.db.MaxHeight())
                && (old(Lone(prevOrphans, b.hash)) ==> OnMainAt(bc.db, old(prevOrphans[b.hash][0].block.hash)))
    {
      hide PoolSound, Sound, Rooted, Consistent, Underway, NobodyWaits, Keeps, OnMainAt, Extendable;
      hide Refuses, CanReplace, Replaces, SameMain, SameParents, OnTop, WaitingWithout, Reaches, AllCommits, Hung;
      main, refused := false, None;
      var prevHashes := [b.hash] + seq(MaxEqualBlockWeight - 1, i => Hash(0));
      ghost var s0, commits := Now(), AllCommits(bc.disk, bc.writes);
      ghost var start := Hung(s0, b.hash);
      ghost var kept, first := start, FirstFitting(bc.exec, bc.regular, s0, bc.disk(s0.writes), b.hash);
      StartUnderway(bc.H, s0, b.hash, first, commits);
      while prevHashes != []
        invariant Valid() && Hung(s0, b.hash) <= kept
        invariant Underway(bc.H, s0, Now(), b.hash, prevHashes, kept, first, commits, main)
        decreases |orphans|, |prevHashes|
      {
        var prevHash := prevHashes[0];
        assert prevHashes == [prevHash] + prevHashes[1..];
        prevHashes := prevHashes[1..];
        ghost var n, rest := |orphans|, prevHashes;
        while prevHash in prevOrphans
          invariant Valid() && Hung(s0, b.hash) <= kept
          invariant Underway(bc.H, s0, Now(), b.hash, [prevHash] + prevHashes, kept, first, commits, main)
          invariant |orphans| < n || (|orphans| == n && prevHashes == rest)
          decreases |orphans|
        {
          ghost var listed := [prevHash] + prevHashes;
          var o, ok;
          o, ok, main := TakeFirst(prevHash, s0, b.hash, listed, kept, first, commits, main);
          if !ok {
            refused := Some(o.block.hash);
            return;
          }
          kept := kept + if first == Some(o.block.hash) && Lone(s0.waiting, b.hash) then iset{o.block.hash} else iset{};
          assert [prevHash] + (prevHashes + [o.block.hash]) == listed + [o.block.hash];
          prevHashes := prevHashes + [o.block.hash];
        }
        ListDone(bc.H, s0, Now(), b.hash, prevHash, prevHashes, kept, first, commits, main);
      }
      Ends(bc.H, bc.exec, bc.regular, s0, Now(), b.hash, kept, first, commits, main);
    }

    /** The body of the inner loop of ProcessOrphan: the first orphan that waits for the hash is taken. */
    method TakeFirst(prevHash: Hash, ghost s0: State, ghost b: Hash, ghost listed: seq<Hash>, ghost kept: iset<Hash>,
                     ghost first: Option<Hash>, ghost commits: bool, ghost was: bool)
      returns (o: Orphan, ok: bool, main: bool)
      requires Valid() && Underway(bc.H, s0, Now(), b, listed, kept, first, commits, was) && Hung(s0, b) <= kept
      requires listed != [] && listed[0] == prevHash && prevHash in prevOrphans
      requires commits ==> AllCommits(bc.disk, s0.writes)
      requires first == FirstFitting(bc.exec, bc.regular, s0, bc.disk(s0.writes), b)
      modifies this, bc
      ensures Valid() && |orphans| < old(|orphans|)
      ensures ok ==>
                var more := if first == Some(o.block.hash) && Lone(s0.waiting, b) then iset{o.block.hash} else iset{};
                Underway(bc.H, s0, Now(), b, listed + [o.block.hash], kept + more, first, commits, main)
      ensures !ok ==>
                !main && Ended(bc.exec, bc.regular, s0, Now(), b, Some(o.block.hash), first, commits, false)
    {
      hide PoolSound, Sound, Rooted, Consistent, Underway, Taken, NobodyWaits, Keeps, OnMainAt, Extendable, Ended;
      hide Refuses, CanReplace, Replaces, SameMain, SameParents, OnTop, WaitingWithout, Reaches, Lone, Commits, AllCommits;
      hide Offered, Guarded, Start, Hung, FirstFitting;
      FirstWaiting(bc.H, orphans, prevOrphans, bc.db.blocks.Keys, prevHash);
      o := prevOrphans[prevHash][0];
      ghost var s := Now();
      if first.Some? {
        FirstFitted(bc.exec, bc.regular, s0, bc.disk(s0.writes), b);
      }
      UnderwayFacts(bc.H, s0, s, b, listed, kept, first, commits, was);
      if commits {
        CommitsAhead(s0.writes);
      }
      ok, main := TakeOrphan(o);
      if s == s0 && first.Some? && listed[0] == b {
        FirstGoes(bc.exec, bc.regular, s.db, bc.db, o.block, ok, main, old(Commits(2)));
      }
      if ok {
        TakenOn(bc.H, bc.exec, s0, s, Now(), b, o, was, main, listed, kept, first, commits);
      } else {
        RefusedEnds(bc.H, bc.exec, bc.regular, s0, s, Now(), b, o, was, listed, kept, first, commits);
      }
    }

    /** The body of the inner loop of ProcessOrphan: the orphan leaves the pool and is offered to the chain. */
    method TakeOrphan(o: Orphan) returns (ok: bool, main: bool)
      requires Valid() && o.block.hash in orphans && orphans[o.block.hash] == o
      modifies this, bc
      ensures Valid() && orphans == old(orphans) - {o.block.hash} && |orphans| < old(|orphans|)
      ensures prevOrphans == WaitingWithout(old(prevOrphans), o)
      ensures (main ==> ok) && (!main ==> bc.sdb == old(bc.sdb))
      ensures ok && old(bc.disk(bc.writes)) ==> o.block.hash in bc.db.blocks
      ensures !ok && old(Commits(2)) ==> Refuses(bc.exec, bc.regular, bc.db, o.block)
      ensures Offered(bc.exec, bc.regular, old(bc.db), bc.db, o.block, ok, main, old(bc.disk(bc.writes)), old(Commits(2)))
      ensures Taken(bc.H, old(Now()), Now(), o, ok, main)
    {
      KeyOfOrphan(bc.H, orphans, prevOrphans, bc.db.blocks.Keys, o.block.hash);
      hide PoolSound, Sound, Rooted, Consistent, Replaces, CanReplace, Keeps, SameParents, Extendable, Refuses, OnTop;
      hide WaitingWithout, SameMain, Taken, Offered, Commits;
      OneFewer(orphans, o.block.hash);
      ghost var s := Now();
      CommitsNow();
      RemoveOrphanBlock(o);
      ok, main := MaybeAcceptBlock(o.block);
      MoreBlocks(bc.H, orphans, prevOrphans, s.db.blocks.Keys, bc.db.blocks.Keys, o.block.hash);
      OfferedBy(bc.exec, bc.regular, s.db, bc.db, o.block, ok, main, old(bc.disk(bc.writes)), old(Commits(2)));
      if !ok && old(Commits(2)) {
        StillRefused(bc.exec, bc.regular, s.db, bc.db, o.block, main, old(bc.disk(bc.writes)), old(Commits(2)));
      }
      TakenBy(bc.H, bc.exec, bc.regular, s, Now(), o, ok, main, old(bc.disk(bc.writes)), old(Commits(2)));
    }

    /** The block is new, and its parent is stored; above the initial height there is always a tip. */
    predicate Placed(b: Block)
      reads this, bc
    {
      && bc.db.MaxHeight() != InitHeight && b.hash !in bc.db.blocks && b.hash !in orphans && b.prev in bc.db.blocks
      && bc.db.Tip().Some?
    }

    /** ProcessBlock: whatever the block, the chain stays sound and never gets shorter; an answer of true means that
        it got longer, and a block that is known already changes nothing. */
    method ProcessBlock(b: Block, now: int) returns (main: bool)
      requires Valid() && Consistent(bc.H, b)
      modifies this, bc
      ensures Valid()
      ensures bc.db.MaxHeight() >= old(bc.db.MaxHeight())
      ensures main ==> bc.db.MaxHeight() > old(bc.db.MaxHeight())
      ensures old(b.hash in bc.db.blocks || b.hash in orphans) ==>
                !main && bc.db == old(bc.db) && bc.sdb == old(bc.sdb) && orphans == old(orphans)
      ensures old(bc.db.MaxHeight() == InitHeight && b.hash !in bc.db.blocks && b.hash !in orphans) ==>
                main == (b.height == Low && bc.exec(old(bc.sdb), b.height, b.body).0 && old(bc.disk(bc.writes)))
      ensures old(bc.db.MaxHeight() != InitHeight && b.hash !in bc.db.blocks && b.prev !in bc.db.blocks) ==>
                !main && bc.db == old(bc.db) && bc.sdb == old(bc.sdb) && b.hash in orphans
      ensures old(Placed(b) && b.prev == bc.db.Tip().value.hash) ==>
                main == old(Extendable(bc.exec, bc.regular, bc.db, b, bc.db.Tip().value) && bc.disk(bc.writes))
      ensures old(Placed(b) && b.prev != bc.db.Tip().value.hash && bc.db.blocks[b.prev].height == bc.db.MaxHeight()) ==>
                && (main ==> CanReplace(bc.exec, bc.regular, old(bc.db), b, old(bc.db).Tip().value))
                && (old(Commits(2)) && CanReplace(bc.exec, bc.regular, old(bc.db), b, old(bc.db).Tip().value) ==> main)
                && (!main ==> SameMain(old(bc.db), bc.db) && bc.sdb == old(bc.sdb))
      ensures old(Placed(b) && b.prev != bc.db.Tip().value.hash && bc.db.blocks[b.prev].height > bc.db.MaxHeight()) ==>
                !main && bc.db == old(bc.db)
      ensures old(Placed(b) && b.prev != bc.db.Tip().value.hash && bc.db.blocks[b.prev].height < bc.db.MaxHeight()
                  && bc.disk(bc.writes)) ==>
                && b.hash in bc.db.blocks
                && (old(b.hash !in prevOrphans && Hash(0) !in prevOrphans) ==>
                      !main && bc.db == old(bc.db).(blocks := old(bc.db).blocks[b.hash := b]))
      ensures old(Placed(b) && (b.prev == bc.db.Tip().value.hash || bc.db.blocks[b.prev].height == bc.db.MaxHeight())
                  && Hash(0) !in prevOrphans) && main ==>
                OnMainAt(bc.db, b.hash) && (old(b.hash !in prevOrphans) ==> OnTop(old(bc.db), bc.db, b))
      ensures old(Placed(b) && b.prev == bc.db.Tip().value.hash && b.hash in prevOrphans && prevOrphans[b.hash] != [])
              && main && AllCommits(bc.disk, old(bc.writes)) ==>
                var root := bc.exec(old(bc.db).CurrentRoot(), b.height, b.body).1;
                var o := old(prevOrphans[b.hash][0].block);
                Extendable(bc.exec, bc.regular, Extended(old(bc.db), b, root), o, b.(snapRoot := root)) ==>
                  && bc.db.MaxHeight() >= old(bc.db.MaxHeight()) + 2
                  && (old(Lone(prevOrphans, b.hash)) ==> OnMainAt(bc.db, o.hash))
    {
      hide PoolSound, Sound, Rooted, RootFits, Consistent, Replaces, Extendable, Keeps, SameParents, Extended;
      hide Refuses, Lone, NobodyWaits, AllCommits, Commits, OnMainAt;
      if b.hash in bc.db.blocks || b.hash in orphans {
        return false;
      }
      ghost var known := bc.db.blocks.Keys;
      if bc.db.MaxHeight() == InitHeight {
        ghost var db0, root := bc.db, bc.exec(bc.sdb, b.height, b.body).1;
        main := bc.AddBlock(b);
        if main {
          ExtendedOnTop(db0, b, root);
          MoreBlocks(bc.H, orphans, prevOrphans, known, bc.db.blocks.Keys, b.hash);
        }
        return;
      }
      if b.prev !in bc.db.blocks {
        AddOrphanBlock(b, now);
        return false;
      }
      TipExists(bc.H, bc.exec, bc.db);
      ghost var db0 := bc.db;
      var ok;
      ok, main := MaybeAcceptBlock(b);
      MoreBlocks(bc.H, orphans, prevOrphans, known, bc.db.blocks.Keys, b.hash);
      if !ok {
        return false;
      }
      ghost var db1 := bc.db;
      ExtendedTip(db0, b, bc.exec(db0.CurrentRoot(), b.height, b.body).1);
      if main && AllCommits(bc.disk, old(bc.writes)) {
        CommitsAhead(old(bc.writes));
      }
      var more, _ := ProcessOrphan(b);
      if main {
        TopKept(bc.H, db0, db1, bc.db, b);
      }
      if more {
        main := true;
      }
    }
  }

  /** What offering a block to the chain has done: a child of the tip goes on top if it can, a block on a branch as high
      as the main chain replaces its end if it can, one further down is set aside, and any other is refused. */
  ghost predicate Offered(exec: Exec, regular: Regular, db: Db, db': Db, b: Block, ok: bool, main: bool, disk: bool,
                          both: bool) {
    if db.Tip().None? then !ok && db' == db
    else
      var tip := db.Tip().value;
      if b.prev == tip.hash then
        main == ok == (Extendable(exec, regular, db, b, tip) && disk) && (!ok ==> db' == db)
      else if b.prev !in db.blocks || db.blocks[b.prev].height > db.MaxHeight() then !ok && db' == db
      else if db.blocks[b.prev].height == db.MaxHeight() then
        && main == ok && (ok ==> exists path :: Replaces(exec, regular, db, db', b, tip, path))
        && (both && CanReplace(exec, regular, db, b, tip) ==> ok)
      else ok && !main && db' == if disk then db.(blocks := db.blocks[b.hash := b]) else db
  }

  lemma OfferedBy(exec: Exec, regular: Regular, db: Db, db': Db, b: Block, ok: bool, main: bool, disk: bool, both: bool)
    requires db.Tip().None? ==> !ok && db' == db
    requires db.Tip().Some? && b.prev == db.Tip().value.hash ==>
               main == ok == (Extendable(exec, regular, db, b, db.Tip().value) && disk) && (!ok ==> db' == db)
    requires (db.Tip().Some? && b.prev != db.Tip().value.hash
              && (b.prev !in db.blocks || db.blocks[b.prev].height > db.MaxHeight())) ==>
               !ok && db' == db
    requires (db.Tip().Some? && b.prev != db.Tip().value.hash
              && b.prev in db.blocks && db.blocks[b.prev].height == db.MaxHeight()) ==>
               var tip := db.Tip().value;
               && main == ok && (ok ==> exists path :: Replaces(exec, regular, db, db', b, tip, path))
               && (both && CanReplace(exec, regular, db, b, tip) ==> ok)
    requires (db.Tip().Some? && b.prev != db.Tip().value.hash
              && b.prev in db.blocks && db.blocks[b.prev].height < db.MaxHeight()) ==>
               ok && !main && db' == if disk then db.(blocks := db.blocks[b.hash := b]) else db
    ensures Offered(exec, regular, db, db', b, ok, main, disk, both)
  {
    hide Extendable, Replaces, CanReplace;
  }

  /** Why maybeAcceptBlock refuses a block when the commits go through: there is no tip, a child of the tip cannot go on
      top, the parent is missing or higher than the tip, or no reorganisation puts the block on top. */
  ghost predicate Refuses(exec: Exec, regular: Regular, db: Db, b: Block) {
    || db.Tip().None?
    || var tip := db.Tip().value;
       if b.prev == tip.hash then !Extendable(exec, regular, db, b, tip)
       else || b.prev !in db.blocks || db.blocks[b.prev].height > db.MaxHeight()
            || (db.blocks[b.prev].height == db.MaxHeight() && !CanReplace(exec, regular, db, b, tip))
  }

  /** A block refused by the old tables is refused by the new ones, in which it may have been left stored. */
  lemma StillRefused(exec: Exec, regular: Regular, db: Db, db': Db, b: Block, main: bool, disk: bool, both: bool)
    requires Offered(exec, regular, db, db', b, false, main, disk, both) && disk && both
    requires b.hash !in db.blocks && (!main ==> SameMain(db, db'))
    requires db'.blocks == db.blocks || db'.blocks == db.blocks[b.hash := b]
    ensures Refuses(exec, regular, db', b)
  {
    hide Extendable, Replaces;
    assert db'.blocks == db.blocks[b.hash := b] ==> db'.blocks[b.hash := b] == db.blocks[b.hash := b];
    assert db' == db || db'.(blocks := db'.blocks[b.hash := b]) == db.(blocks := db.blocks[b.hash := b]);
    if db' != db && CanReplace(exec, regular, db', b, db.Tip().value) {
      var path, db2 :| Replaces(exec, regular, db', db2, b, db.Tip().value, path);
      SameReplaces(exec, regular, db, db', db2, b, db.Tip().value, path);
    }
  }

  lemma SameReplaces(exec: Exec, regular: Regular, db: Db, db': Db, db2: Db, b: Block, tip: Block, path: seq<Hash>)
    requires db'.(blocks := db'.blocks[b.hash := b]) == db.(blocks := db.blocks[b.hash := b])
    requires Replaces(exec, regular, db', db2, b, tip, path)
    ensures Replaces(exec, regular, db, db2, b, tip, path)
  {
    hide MeetAt, PathOf, Reorganized;
  }

  // ----- a run of processOrphan -----

  /** The pool, the database, and the commits made. */
  datatype State = State(orphans: Orphans, waiting: Waiting, db: Db, sdb: Root, writes: nat)

  /** Whoever waits for p hangs on g, or on a block that is not stored and will not be, or below g with nobody waiting
      for it in turn. */
  ghost predicate Shielded(H: Hash -> nat, s: State, p: Hash, g: Hash) {
    p in s.waiting ==>
      || Reaches(s.db.blocks, p, g)
      || (p !in s.db.blocks && p !in s.orphans)
      || (H(p) < H(g) && forall o :: o in s.waiting[p] ==> o.block.hash !in s.waiting)
  }

  /** The blocks of the set are on the main chain, and none of those that wait for a listed hash can take them off. */
  ghost predicate Guarded(H: Hash -> nat, s: State, listed: seq<Hash>, kept: iset<Hash>) {
    && (forall g :: g in kept ==> OnMainAt(s.db, g))
    && (forall g, p :: g in kept && p in listed ==> Shielded(H, s, p, g))
  }

  /** What taking the orphan o from the pool and offering it has done. */
  ghost predicate Taken(H: Hash -> nat, s: State, s': State, o: Orphan, ok: bool, main: bool) {
    var h, p := o.block.hash, o.block.prev;
    && h in s.orphans && s'.orphans == s.orphans - {h} && s'.waiting == WaitingWithout(s.waiting, o)
    && s.db.blocks.Keys <= s'.db.blocks.Keys <= s.db.blocks.Keys + {h} && s'.writes >= s.writes
    && SameParents(s.db.blocks, s'.db.blocks) && Keeps(s.db, s'.db, p)
    && (h in s'.db.blocks ==> s'.db.blocks[h].prev == p)
    && (main ==> ok && OnTop(s.db, s'.db, o.block)) && (!main ==> SameMain(s.db, s'.db))
    && (p !in s.db.blocks ==> !ok) && (p !in s.db.blocks || H(p) < s.db.MaxHeight() ==> !main)
  }

  lemma LowParent(H: Hash -> nat, exec: Exec, db: Db, p: Hash)
    requires Sound(H, exec, db)
    ensures db.Tip().Some? && (p !in db.blocks || H(p) < db.MaxHeight()) ==> p != db.Tip().value.hash
    ensures p in db.blocks ==> H(p) == db.blocks[p].height
  {
  }

  lemma FirstGoes(exec: Exec, regular: Regular, db: Db, db': Db, b: Block, ok: bool, main: bool, both: bool)
    requires Offered(exec, regular, db, db', b, ok, main, true, both)
    requires db.Tip().Some? && b.prev == db.Tip().value.hash && Extendable(exec, regular, db, b, db.Tip().value)
    ensures ok && main
  {
    hide Extendable, Replaces, CanReplace;
  }

  lemma TakenBy(H: Hash -> nat, exec: Exec, regular: Regular, s: State, s': State, o: Orphan, ok: bool, main: bool,
                disk: bool, both: bool)
    requires Sound(H, exec, s.db) && o.block.hash in s.orphans && s'.orphans == s.orphans - {o.block.hash}
    requires s'.waiting == WaitingWithout(s.waiting, o) && s'.writes >= s.writes
    requires s.db.blocks.Keys <= s'.db.blocks.Keys <= s.db.blocks.Keys + {o.block.hash}
    requires SameParents(s.db.blocks, s'.db.blocks) && Keeps(s.db, s'.db, o.block.prev)
    requires o.block.hash in s'.db.blocks ==> s'.db.blocks[o.block.hash].prev == o.block.prev
    requires (main ==> ok && OnTop(s.db, s'.db, o.block)) && (!main ==> SameMain(s.db, s'.db))
    requires Offered(exec, regular, s.db, s'.db, o.block, ok, main, disk, both)
    ensures Taken(H, s, s', o, ok, main)
  {
    hide Sound, WaitingWithout, SameParents, Keeps, OnTop, SameMain, Extendable, CanReplace, Replaces;
    LowParent(H, exec, s.db, o.block.prev);
  }

  lemma MainHas(H: Hash -> nat, db: Db, g: Hash)
    requires BlocksConsistent(H, db) && OnMainAt(db, g)
    ensures H(g) <= db.MaxHeight()
  {
    var k := MainIndex(db, g);
    MainHeight(H, db, k);
  }

  /** Taking an orphan leaves the guarded blocks on the main chain. */
  lemma TakenGuarded(H: Hash -> nat, exec: Exec, s: State, s': State, o: Orphan, ok: bool, main: bool, listed: seq<Hash>,
                     kept: iset<Hash>, g: Hash)
    requires Sound(H, exec, s.db) && Guarded(H, s, listed, kept) && Taken(H, s, s', o, ok, main)
    requires o.block.prev in listed && o.block.prev in s.waiting && g in kept
    ensures OnMainAt(s'.db, g)
  {
    hide Sound, Reaches, OnMainAt, WaitingWithout, OnTop, SameMain, SameParents;
    assert Shielded(H, s, o.block.prev, g);
    SoundConsistent(H, exec, s.db);
    MainHas(H, s.db, g);
    if SameMain(s.db, s'.db) {
      SameMainOn(s.db, s'.db, g);
    }
  }

  lemma SameMainOn(db: Db, db': Db, g: Hash)
    requires SameMain(db, db') && OnMainAt(db, g)
    ensures OnMainAt(db', g)
  {
    var k := MainIndex(db, g);
    MainBy(db', g, k);
  }

  lemma FewerWait(waiting: Waiting, o: Orphan, p: Hash)
    requires p in WaitingWithout(waiting, o)
    ensures p in waiting
    ensures forall x :: x in WaitingWithout(waiting, o)[p] ==> x in waiting[p]
    ensures p == o.block.prev ==> forall x :: x in WaitingWithout(waiting, o)[p] ==> x.block.hash != o.block.hash
  {
  }

  lemma {:induction false} ChildReaches(blocks: map<Hash, Block>, h: Hash, j: nat)
    requires h in blocks
    ensures Ancestor(blocks, h, j + 1) == Ancestor(blocks, blocks[h].prev, j)
    decreases j
  {
    if j > 0 {
      ChildReaches(blocks, h, j - 1);
    }
  }

  lemma ReachesOn(blocks: map<Hash, Block>, blocks': map<Hash, Block>, p: Hash, g: Hash)
    requires SameParents(blocks, blocks') && Reaches(blocks, p, g)
    ensures Reaches(blocks', p, g)
    ensures forall h :: h in blocks' && blocks'[h].prev == p ==> Reaches(blocks', h, g)
  {
    hide Ancestor, SameParents;
    var j: nat :| Ancestor(blocks, p, j) == Some(g);
    SameAncestor(blocks, blocks', p, j);
    forall h | h in blocks' && blocks'[h].prev == p ensures Reaches(blocks', h, g) {
      ChildReaches(blocks', h, j);
    }
  }

  lemma ShieldedOn(H: Hash -> nat, s: State, s': State, o: Orphan, ok: bool, main: bool, p: Hash, g: Hash)
    requires Taken(H, s, s', o, ok, main) && Shielded(H, s, p, g)
    ensures Shielded(H, s', p, g)
  {
    hide Reaches, OnTop, SameMain, SameParents, Keeps, WaitingWithout;
    if p in s'.waiting {
      FewerWait(s.waiting, o, p);
      if Reaches(s.db.blocks, p, g) {
        ReachesOn(s.db.blocks, s'.db.blocks, p, g);
      } else if H(p) < H(g) && forall x :: x in s.waiting[p] ==> x.block.hash !in s.waiting {
        forall x | x in s'.waiting[p] ensures x.block.hash !in s'.waiting {
          if x.block.hash in s'.waiting {
            FewerWait(s.waiting, o, x.block.hash);
            assert false;
          }
        }
      }
    }
  }

  /** The orphan that has been taken is shielded as those that wait for its parent were. */
  lemma ShieldedNext(H: Hash -> nat, s: State, s': State, o: Orphan, main: bool, g: Hash)
    requires Taken(H, s, s', o, true, main) && Shielded(H, s, o.block.prev, g)
    requires o.block.prev in s.waiting && o in s.waiting[o.block.prev]
    ensures Shielded(H, s', o.block.hash, g)
  {
    hide Reaches, OnTop, SameMain, SameParents, Keeps, WaitingWithout;
    var h := o.block.hash;
    if h in s'.waiting {
      FewerWait(s.waiting, o, h);
      if Reaches(s.db.blocks, o.block.prev, g) {
        ReachesOn(s.db.blocks, s'.db.blocks, o.block.prev, g);
      }
    }
  }

  lemma GuardedOn(H: Hash -> nat, exec: Exec, s: State, s': State, o: Orphan, main: bool, listed: seq<Hash>,
                  kept: iset<Hash>)
    requires Sound(H, exec, s.db) && Guarded(H, s, listed, kept) && Taken(H, s, s', o, true, main)
    requires o.block.prev in listed && o.block.prev in s.waiting && o in s.waiting[o.block.prev]
    ensures Guarded(H, s', listed + [o.block.hash], kept)
  {
    hide Sound, Shielded, OnMainAt, Taken;
    forall g | g in kept ensures OnMainAt(s'.db, g) {
      TakenGuarded(H, exec, s, s', o, true, main, listed, kept, g);
    }
    forall g, p | g in kept && p in listed + [o.block.hash] ensures Shielded(H, s', p, g) {
      if p in listed {
        ShieldedOn(H, s, s', o, true, main, p, g);
      } else {
        ShieldedNext(H, s, s', o, main, g);
      }
    }
  }

  /** Every commit from the n-th on goes through. */
  ghost predicate AllCommits(disk: nat -> bool, n: nat) {
    forall i :: i >= n ==> disk(i)
  }

  /** The orphans that have left the pool are stored, except for one. */
  ghost predicate TakenStored(before: Orphans, orphans: Orphans, blocks: set<Hash>, except: Option<Hash>) {
    forall h :: h in before && h !in orphans && except != Some(h) ==> h in blocks
  }

  /** Nobody waits for the blocks that wait for b, apart from the first one, nor for the zero hash. */
  ghost predicate Lone(waiting: Waiting, b: Hash) {
    && Hash(0) !in waiting && b in waiting && waiting[b] != []
    && forall o :: o in waiting[b][1..] ==> o.block.hash !in waiting
  }

  /** The list that processOrphan starts with. */
  function Start(b: Hash): seq<Hash> {
    [b] + seq(MaxEqualBlockWeight - 1, i => Hash(0))
  }

  /** The main chain's blocks that b hangs on, provided that nobody waits for the zero hash. */
  ghost function Hung(s: State, b: Hash): iset<Hash> {
    iset g | Hash(0) !in s.waiting && OnMainAt(s.db, g) && Reaches(s.db.blocks, b, g)
  }

  /** The first block waiting for the tip b, if it can go on top. */
  ghost function FirstFitting(exec: Exec, regular: Regular, s: State, disk: bool, b: Hash): (first: Option<Hash>) {
    if && b in s.waiting && s.waiting[b] != [] && disk && s.db.Tip().Some? && s.db.Tip().value.hash == b
       && Extendable(exec, regular, s.db, s.waiting[b][0].block, s.db.Tip().value)
    then Some(s.waiting[b][0].block.hash) else None
  }

  lemma FirstFitted(exec: Exec, regular: Regular, s: State, disk: bool, b: Hash)
    requires FirstFitting(exec, regular, s, disk, b).Some?
    ensures b in s.waiting && s.waiting[b] != [] && disk
    ensures FirstFitting(exec, regular, s, disk, b).value == s.waiting[b][0].block.hash
    ensures s.db.Tip().Some? && s.db.Tip().value.hash == b
    ensures Extendable(exec, regular, s.db, s.waiting[b][0].block, s.db.Tip().value)
  {
    hide Extendable;
  }

  /** What holds while processOrphan is under way, with the given hashes still listed: first is the first block waiting
      for b, when that can go on top of b, and commits says that all commits go through. */
  ghost predicate Underway(H: Hash -> nat, s0: State, s: State, b: Hash, listed: seq<Hash>, kept: iset<Hash>,
                           first: Option<Hash>, commits: bool, main: bool) {
    && s.orphans.Keys <= s0.orphans.Keys && s0.db.blocks.Keys <= s.db.blocks.Keys && s.writes >= s0.writes
    && s.db.MaxHeight() >= s0.db.MaxHeight() && (main ==> s.db.MaxHeight() > s0.db.MaxHeight())
    && (forall h :: h in s.orphans ==> s.orphans[h] == s0.orphans[h])
    && NobodyWaits(s0.orphans, s.orphans, s.waiting, b, listed)
    && (s.orphans.Keys < s0.orphans.Keys || (s == s0 && !main && (listed == Start(b) || b !in s.waiting)))
    && Guarded(H, s, listed, kept)
    && (first.Some? && s.orphans.Keys < s0.orphans.Keys ==>
          s.db.MaxHeight() > s0.db.MaxHeight() && (Lone(s0.waiting, b) ==> first.value in kept))
    && (commits ==> TakenStored(s0.orphans, s.orphans, s.db.blocks.Keys, None))
    && (b !in s0.waiting && Hash(0) !in s0.waiting ==> s == s0 && forall p :: p in listed ==> p !in s0.waiting)
  }

  lemma StartUnderway(H: Hash -> nat, s0: State, b: Hash, first: Option<Hash>, commits: bool)
    ensures Underway(H, s0, s0, b, Start(b), Hung(s0, b), first, commits, false)
  {
    hide Reaches, OnMainAt;
    assert Start(b)[0] == b;
  }

  lemma FirstListed(H: Hash -> nat, s0: State, s: State, b: Hash, listed: seq<Hash>, kept: iset<Hash>,
                    first: Option<Hash>, commits: bool, main: bool)
    requires Underway(H, s0, s, b, listed, kept, first, commits, main) && b in s0.waiting && s == s0
    ensures listed == Start(b) && listed[0] == b
  {
    hide NobodyWaits, Guarded, TakenStored;
  }

  lemma UnderwayFacts(H: Hash -> nat, s0: State, s: State, b: Hash, listed: seq<Hash>, kept: iset<Hash>,
                      first: Option<Hash>, commits: bool, main: bool)
    requires Underway(H, s0, s, b, listed, kept, first, commits, main)
    ensures s.writes >= s0.writes && s.orphans.Keys <= s0.orphans.Keys
    ensures forall h :: h in s.orphans ==> s.orphans[h] == s0.orphans[h]
  {
    hide NobodyWaits, Guarded, TakenStored, Start;
  }

  lemma ListDone(H: Hash -> nat, s0: State, s: State, b: Hash, done: Hash, listed: seq<Hash>, kept: iset<Hash>,
                 first: Option<Hash>, commits: bool, main: bool)
    requires Underway(H, s0, s, b, [done] + listed, kept, first, commits, main) && done !in s.waiting
    ensures Underway(H, s0, s, b, listed, kept, first, commits, main)
  {
    hide Shielded, OnMainAt, TakenStored;
    NoneWaits(s0.orphans, s.orphans, s.waiting, b, done, listed);
    assert forall p :: p in listed ==> p in [done] + listed;
    assert ([done] + listed)[0] == done && Start(b)[0] == b;
  }

  lemma InStart(b: Hash, p: Hash, h: Hash, waiting: Waiting)
    requires p in Start(b) + [h] && p in waiting && Hash(0) !in waiting
    ensures p == b || p == h
  {
  }

  /** The first orphan taken goes on top and is guarded from then on. */
  lemma FirstGuarded(H: Hash -> nat, s: State, s': State, b: Hash, o: Orphan)
    requires Taken(H, s, s', o, true, true) && Lone(s.waiting, b) && o == s.waiting[b][0] && o.block.prev == b
    requires Consistent(H, o.block) && s.db.MaxHeight() >= InitHeight
    ensures Guarded(H, s', Start(b) + [o.block.hash], iset{o.block.hash})
  {
    hide SameMain, SameParents, Keeps, WaitingWithout, Reaches;
    var h := o.block.hash;
    assert OnMainAt(s'.db, h);
    forall p | p in Start(b) + [h] ensures Shielded(H, s', p, h) {
      if p in s'.waiting {
        FewerWait(s.waiting, o, p);
        if p == h {
          ReachesSelf(s'.db.blocks, h);
        } else {
          InStart(b, p, h, s.waiting);
          forall x | x in s'.waiting[b] ensures x.block.hash !in s'.waiting {
            assert x in s.waiting[b][1..];
            if x.block.hash in s'.waiting {
              FewerWait(s.waiting, o, x.block.hash);
              assert false;
            }
          }
        }
      }
    }
  }

  lemma LoneIs(H: Hash -> nat, s0: State, s: State, b: Hash, o: Orphan, main: bool, listed: seq<Hash>,
               kept: iset<Hash>, first: Option<Hash>, commits: bool)
    requires Underway(H, s0, s, b, listed, kept, first, commits, main) && first.Some? && first.value !in kept
    requires listed != [] && o.block.prev == listed[0] && listed[0] in s.waiting
    requires Lone(s0.waiting, b)
    ensures s == s0 && listed == Start(b) && listed[0] == b
  {
    hide NobodyWaits, Guarded, TakenStored, Lone;
    assert b in s0.waiting by {
      LoneWaits(s0.waiting, b);
    }
    FirstListed(H, s0, s, b, listed, kept, first, commits, main);
  }

  lemma LoneWaits(waiting: Waiting, b: Hash)
    requires Lone(waiting, b)
    ensures b in waiting && waiting[b] != []
  {
  }

  lemma TakenHeights(H: Hash -> nat, s0: State, s: State, s': State, o: Orphan, ok: bool, main: bool)
    requires Taken(H, s, s', o, ok, main) && s.orphans.Keys <= s0.orphans.Keys && s0.db.blocks.Keys <= s.db.blocks.Keys
    requires s.db.MaxHeight() >= s0.db.MaxHeight() && s.writes >= s0.writes
    ensures s'.orphans.Keys < s0.orphans.Keys && s0.db.blocks.Keys <= s'.db.blocks.Keys && s'.writes >= s0.writes
    ensures s'.db.MaxHeight() >= s.db.MaxHeight() && (main ==> s'.db.MaxHeight() > s0.db.MaxHeight())
  {
    hide Keeps, SameParents, WaitingWithout;
  }

  lemma TakenTables(H: Hash -> nat, s0: State, s: State, s': State, b: Hash, o: Orphan, ok: bool, main: bool,
                    listed: seq<Hash>, commits: bool)
    requires Taken(H, s, s', o, ok, main) && s.orphans.Keys <= s0.orphans.Keys
    requires NobodyWaits(s0.orphans, s.orphans, s.waiting, b, listed)
    requires commits ==> TakenStored(s0.orphans, s.orphans, s.db.blocks.Keys, None)
    ensures NobodyWaits(s0.orphans, s'.orphans, s'.waiting, b, listed + [o.block.hash])
    ensures commits ==> TakenStored(s0.orphans, s'.orphans, s'.db.blocks.Keys, Some(o.block.hash))
    ensures commits && o.block.hash in s'.db.blocks ==> TakenStored(s0.orphans, s'.orphans, s'.db.blocks.Keys, None)
  {
    hide Keeps, SameParents, WaitingWithout, OnTop, SameMain;
    forall p | p in s'.waiting ensures p in s.waiting {
      FewerWait(s.waiting, o, p);
    }
  }

  /** An orphan that is accepted leaves everything under way, with its own hash listed as well. */
  lemma TakenOn(H: Hash -> nat, exec: Exec, s0: State, s: State, s': State, b: Hash, o: Orphan, was: bool, main: bool,
                listed: seq<Hash>, kept: iset<Hash>, first: Option<Hash>, commits: bool)
    requires Underway(H, s0, s, b, listed, kept, first, commits, was) && Taken(H, s, s', o, true, main)
    requires listed != [] && o.block.prev == listed[0] && listed[0] in s.waiting && s.waiting[listed[0]] != []
    requires o == s.waiting[listed[0]][0] && Sound(H, exec, s.db) && s.db.MaxHeight() >= InitHeight && Consistent(H, o.block)
    requires first.Some? ==> b in s0.waiting && s0.waiting[b] != [] && s0.waiting[b][0].block.hash == first.value
    requires s == s0 && first.Some? && listed[0] == b ==> main
    requires commits ==> o.block.hash in s'.db.blocks
    ensures var kept' := kept + if first == Some(o.block.hash) && Lone(s0.waiting, b) then iset{o.block.hash} else iset{};
            Underway(H, s0, s', b, listed + [o.block.hash], kept', first, commits, main)
  {
    hide NobodyWaits, Guarded, TakenStored, Keeps, SameParents, WaitingWithout, OnTop, SameMain, Lone, Sound, Consistent;
    hide Start;
    var h := o.block.hash;
    var kept' := kept + if first == Some(h) && Lone(s0.waiting, b) then iset{h} else iset{};
    TakenHeights(H, s0, s, s', o, true, main);
    TakenTables(H, s0, s, s', b, o, true, main, listed, commits);
    GuardedOn(H, exec, s, s', o, main, listed, kept);
    if first.Some? && s == s0 {
      FirstListed(H, s0, s, b, listed, kept, first, commits, was);
    }
    if first.Some? && Lone(s0.waiting, b) && first.value !in kept {
      LoneIs(H, s0, s, b, o, was, listed, kept, first, commits);
      FirstGuarded(H, s, s', b, o);
      GuardedBoth(H, s', listed + [h], kept, iset{h});
    } else {
      assert kept' == kept;
    }
  }

  lemma ReachesSelf(blocks: map<Hash, Block>, h: Hash)
    ensures Reaches(blocks, h, h)
  {
    assert Ancestor(blocks, h, 0) == Some(h);
  }

  lemma GuardedBoth(H: Hash -> nat, s: State, listed: seq<Hash>, kept: iset<Hash>, kept': iset<Hash>)
    requires Guarded(H, s, listed, kept) && Guarded(H, s, listed, kept')
    ensures Guarded(H, s, listed, kept + kept')
  {
    hide Shielded, OnMainAt;
  }

  /** The guarded blocks that b hangs on stay on the main chain. */
  lemma GuardedKeeps(s0: State, db: Db, b: Hash)
    requires forall g :: g in Hung(s0, b) ==> OnMainAt(db, g)
    ensures Hash(0) !in s0.waiting ==> Keeps(s0.db, db, b)
  {
    hide Reaches, OnMainAt;
  }

  lemma GuardedOnMain(H: Hash -> nat, s: State, listed: seq<Hash>, kept: iset<Hash>)
    requires Guarded(H, s, listed, kept)
    ensures forall g :: g in kept ==> OnMainAt(s.db, g)
  {
    hide Shielded, OnMainAt;
  }

  /** What processOrphan has done in the end. */
  ghost predicate Ended(exec: Exec, regular: Regular, s0: State, s: State, b: Hash, refused: Option<Hash>,
                        first: Option<Hash>, commits: bool, main: bool) {
    && s.orphans.Keys <= s0.orphans.Keys && (b in s0.waiting ==> s.orphans.Keys < s0.orphans.Keys)
    && s0.db.blocks.Keys <= s.db.blocks.Keys && s.db.MaxHeight() >= s0.db.MaxHeight()
    && (main ==> s.db.MaxHeight() > s0.db.MaxHeight())
    && (refused.None? ==> NobodyWaits(s0.orphans, s.orphans, s.waiting, b, []))
    && (refused.Some? ==> refused.value in s0.orphans && refused.value !in s.orphans)
    && (commits && refused.Some? ==> Refuses(exec, regular, s.db, s0.orphans[refused.value].block))
    && (commits ==> TakenStored(s0.orphans, s.orphans, s.db.blocks.Keys, refused))
    && (b !in s0.waiting && Hash(0) !in s0.waiting ==> s == s0 && !main && refused.None?)
    && (Hash(0) !in s0.waiting ==> Keeps(s0.db, s.db, b))
    && (first.Some? ==> s.db.MaxHeight() > s0.db.MaxHeight() && (Lone(s0.waiting, b) ==> OnMainAt(s.db, first.value)))
  }

  lemma Ends(H: Hash -> nat, exec: Exec, regular: Regular, s0: State, s: State, b: Hash, kept: iset<Hash>,
             first: Option<Hash>, commits: bool, main: bool)
    requires Underway(H, s0, s, b, [], kept, first, commits, main) && Hung(s0, b) <= kept
    requires first.Some? ==> b in s0.waiting
    ensures Ended(exec, regular, s0, s, b, None, first, commits, main)
  {
    hide Guarded, NobodyWaits, TakenStored, Reaches, OnMainAt, Lone, Keeps, Refuses;
    GuardedOnMain(H, s, [], kept);
    GuardedKeeps(s0, s.db, b);
  }

  lemma RefusedEnds(H: Hash -> nat, exec: Exec, regular: Regular, s0: State, s: State, s': State, b: Hash, o: Orphan,
                    was: bool, listed: seq<Hash>, kept: iset<Hash>, first: Option<Hash>, commits: bool)
    requires Underway(H, s0, s, b, listed, kept, first, commits, was) && Taken(H, s, s', o, false, false)
    requires listed != [] && o.block.prev == listed[0] && listed[0] in s.waiting
    requires Sound(H, exec, s.db) && Hung(s0, b) <= kept
    requires o.block.hash in s.orphans && s.orphans[o.block.hash] == o
    requires first.Some? ==> b in s0.waiting
    requires !(s == s0 && first.Some? && listed[0] == b)
    requires commits ==> Refuses(exec, regular, s'.db, o.block)
    ensures Ended(exec, regular, s0, s', b, Some(o.block.hash), first, commits, false)
  {
    hide Guarded, NobodyWaits, TakenStored, Reaches, OnMainAt, Lone, Keeps, Sound, SameParents, WaitingWithout, Start;
    hide OnTop, SameMain, Refuses;
    TakenHeights(H, s0, s, s', o, false, false);
    TakenTables(H, s0, s, s', b, o, false, false, listed, commits);
    forall g | g in kept ensures OnMainAt(s'.db, g) {
      TakenGuarded(H, exec, s, s', o, false, false, listed, kept, g);
    }
    GuardedKeeps(s0, s'.db, b);
    if first.Some? && s == s0 {
      FirstListed(H, s0, s, b, listed, kept, first, commits, was);
      assert false;
    }
    if first.Some? && Lone(s0.waiting, b) && first.value !in kept {
      LoneIs(H, s0, s, b, o, was, listed, kept, first, commits);
      assert false;
    }
  }

  // ----- when a reorganisation takes place -----

  /** The branch of b meets the main chain below the path, and a run of databases leads from there up the path to b. */
  ghost predicate LedUp(exec: Exec, regular: Regular, db: Db, b: Block, path: seq<Hash>, ts: seq<Db>) {
    var stored := db.(blocks := db.blocks[b.hash := b]);
    && db.Tip().Some? && |path| <= db.MaxHeight()
    && MeetAt(stored.blocks, b.prev, db.Tip().value.hash, |path|) && PathOf(stored.blocks, b.prev, path)
    && Trace(exec, regular, stored, [b.hash] + path, db.MaxHeight() + 1 - |path|, ts)
  }

  /** A block can replace the main chain's end exactly when a run of databases leads up its branch, one checked block
      at a time. */
  lemma CanReplaceTrace(H: Hash -> nat, exec: Exec, regular: Regular, db: Db, b: Block)
    requires Sound(H, exec, db) && Rooted(db) && db.Tip().Some? && Consistent(H, b) && b.hash !in db.blocks
    requires b.prev in db.blocks && db.blocks[b.prev].height == db.MaxHeight() && b.prev != db.Tip().value.hash
    ensures CanReplace(exec, regular, db, b, db.Tip().value) <==> exists path, ts :: LedUp(exec, regular, db, b, path, ts)
  {
    hide Sound, Rooted, MeetAt, PathOf, Trace, Reorganized, Branch, Ancestor, OnMain;
    var tip := db.Tip().value;
    var stored := db.(blocks := db.blocks[b.hash := b]);
    TipFacts(H, exec, db);
    StoredFacts(H, exec, db, b.prev);
    AboveMain(H, exec, db, b);
    UncleSound(H, exec, db, b);
    if CanReplace(exec, regular, db, b, tip) {
      var path, db' :| Replaces(exec, regular, db, db', b, tip, path);
      BranchFound(H, exec, stored, b, tip.hash, path);
      var height := stored.blocks[path[|path| - 1]].height;
      BranchHeight(stored, [b.hash] + path, height);
      TraceExists(H, exec, regular, stored, [b.hash] + path, height);
      var ts :| Trace(exec, regular, stored, [b.hash] + path, height, ts);
      assert LedUp(exec, regular, db, b, path, ts);
    }
    if path, ts :| LedUp(exec, regular, db, b, path, ts) {
      BranchFound(H, exec, stored, b, tip.hash, path);
      var height := stored.blocks[path[|path| - 1]].height;
      BranchHeight(stored, [b.hash] + path, height);
      TraceExists(H, exec, regular, stored, [b.hash] + path, height);
      assert Replaces(exec, regular, db, Reorganized(exec, regular, stored, [b.hash] + path, height).value, b, tip, path);
    }
  }

  /** Why the first orphan of b need not stay: a child of another one takes it off the main chain. */
  lemma SiblingReplaces(H: Hash -> nat, exec: Exec, regular: Regular, db: Db, db': Db, first: Block, other: Block, y: Block,
                        path: seq<Hash>)
    requires Sound(H, exec, db) && db.Tip() == Some(first) && y.hash !in db.blocks && Consistent(H, y)
    requires other.hash in db.blocks && db.blocks[other.hash] == other && other.height == first.height
    requires other.hash != first.hash && other.prev == first.prev && y.prev == other.hash
    requires Replaces(exec, regular, db, db', y, first, path)
    ensures path == [other.hash] && first.height in db'.hashAt && db'.hashAt[first.height] == other.hash
    ensures !OnMainAt(db', first.hash)
  {
    hide Sound, Reorganized, OnMain, Branch, SameBlocks, BlocksConsistent;
    var stored := db.(blocks := db.blocks[y.hash := y]);
    TipFacts(H, exec, db);
    StoredFacts(H, exec, db, other.hash);
    AboveMain(H, exec, db, y);
    UncleSound(H, exec, db, y);
    assert Ancestor(stored.blocks, other.hash, 0) == Some(other.hash);
    assert Ancestor(stored.blocks, first.hash, 0) == Some(first.hash);
    assert Ancestor(stored.blocks, other.hash, 1) == Ancestor(stored.blocks, first.hash, 1) == Some(first.prev);
    assert MeetAt(stored.blocks, other.hash, first.hash, 1);
    SameMeeting(stored.blocks, other.hash, first.hash, 1, |path|);
    assert path[0] == other.hash;
    BranchFound(H, exec, stored, y, first.hash, path);
    ReorganizedChain(H, exec, regular, stored, [y.hash] + path, first.height);
    assert ([y.hash] + path)[1] == other.hash;
    SoundConsistent(H, exec, db');
    forall k | k in db'.hashAt && db'.hashAt[k] == first.hash ensures false {
      MainHeight(H, db', k);
      assert false;
    }
  }

  /** It can: when every block executes without changing the state and passes its check, and the two blocks carry the
      current root, there is such a reorganisation. */
  lemma SiblingCan(H: Hash -> nat, exec: Exec, regular: Regular, db: Db, first: Block, other: Block, y: Block)
    requires Sound(H, exec, db) && db.Tip() == Some(first) && first.height > Low && y.hash !in db.blocks
    requires other.hash in db.blocks && db.blocks[other.hash] == other && other.height == first.height
    requires other.hash != first.hash && other.prev == first.prev && y.prev == other.hash && Consistent(H, y)
    requires other.snapRoot == db.CurrentRoot() && y.snapRoot == db.CurrentRoot()
    requires (forall r, k, body :: exec(r, k, body) == (true, r)) && (forall d, t, x :: regular(d, t, x))
    ensures CanReplace(exec, regular, db, y, first)
  {
    hide Reorganized, RollBack, Replay, BlocksConsistent, OneOn, TxsIndexed;
    var stored := db.(blocks := db.blocks[y.hash := y]);
    TipFacts(H, exec, db);
    StoredFacts(H, exec, db, other.hash);
    AboveMain(H, exec, db, y);
    UncleSound(H, exec, db, y);
    WholeCut(H, exec, stored);
    RollBackCut(H, exec, stored, stored, first.height);
    var tx := RollBack(stored, stored, first.height).value;
    assert tx.CurrentRoot() == db.CurrentRoot() by {
      assert Linked(exec, db, first.height);
    }
    hide Sound, CutAt;
    TwoReplayed(exec, regular, stored, tx, y, other);
    MeetsAtParent(stored.blocks, other, first);
    CutBelow(stored, tx, first.height);
    var hashes := [y.hash] + [other.hash];
    assert hashes == [y.hash, other.hash];
    ReorganizedBy(exec, regular, stored, hashes, first.height);
    assert Replaces(exec, regular, db, Reorganized(exec, regular, stored, hashes, first.height).value, y, first, [other.hash]);
  }

  lemma MeetsAtParent(blocks: map<Hash, Block>, other: Block, first: Block)
    requires other.hash in blocks && first.hash in blocks && other.hash != first.hash
    requires blocks[other.hash].prev == blocks[first.hash].prev
    ensures MeetAt(blocks, other.hash, first.hash, 1) && PathOf(blocks, other.hash, [other.hash])
  {
    assert Ancestor(blocks, other.hash, 0) == Some(other.hash);
    assert Ancestor(blocks, first.hash, 0) == Some(first.hash);
    AncestorUp(blocks, other.hash, 1);
    AncestorUp(blocks, first.hash, 1);
  }

  lemma CutBelow(db: Db, tx: Db, height: nat)
    requires CutAt(db, tx, height)
    ensures tx.MaxHeight() == height - 1
  {
  }

  lemma ReorganizedBy(exec: Exec, regular: Regular, db: Db, hashes: seq<Hash>, height: nat)
    requires height <= db.MaxHeight() && RollBack(db, db, height).Some?
    requires Replay(exec, regular, db, RollBack(db, db, height).value, hashes).Some?
    ensures Reorganized(exec, regular, db, hashes, height).Some?
  {
    hide RollBack, Replay;
  }

  lemma TwoReplayed(exec: Exec, regular: Regular, db: Db, tx: Db, y: Block, other: Block)
    requires y.hash in db.blocks && db.blocks[y.hash] == y && other.hash in db.blocks && db.blocks[other.hash] == other
    requires other.height == tx.MaxHeight() + 1 && y.height == other.height + 1
    requires other.snapRoot == tx.CurrentRoot() && y.snapRoot == tx.CurrentRoot()
    requires (forall r, k, body :: exec(r, k, body) == (true, r)) && (forall d, t, x :: regular(d, t, x))
    ensures Replay(exec, regular, db, tx, [y.hash, other.hash]).Some?
  {
    hide TxsIndexed;
    var r := tx.CurrentRoot();
    var tx1, tx2 := Extended(tx, other, r), Extended(Extended(tx, other, r), y, r);
    assert OneOn(exec, tx, other) == Some(tx1) && OneOn(exec, tx1, y) == Some(tx2);
    assert [y.hash, other.hash][..1] == [y.hash] && [y.hash][..0] == [];
    assert Replay(exec, regular, db, tx1, [y.hash]) == Replay(exec, regular, db, tx2, []);
  }

  /** Nobody waits for b or for a block taken out of the pool, except for those still listed. */
  ghost predicate NobodyWaits(before: Orphans, orphans: Orphans, waiting: Waiting, b: Hash, listed: seq<Hash>) {
    forall h :: (h == b || (h in before && h !in orphans)) && h in waiting ==> h in listed
  }

  lemma NoneWaits(before: Orphans, orphans: Orphans, waiting: Waiting, b: Hash, done: Hash, listed: seq<Hash>)
    requires NobodyWaits(before, orphans, waiting, b, [done] + listed) && done !in waiting
    ensures NobodyWaits(before, orphans, waiting, b, listed)
  {
  }

  lemma FirstWaiting(H: Hash -> nat, orphans: Orphans, waiting: Waiting, blocks: set<Hash>, p: Hash)
    requires PoolSound(H, orphans, waiting, blocks) && p in waiting
    ensures waiting[p] != [] && waiting[p][0].block.hash in orphans && orphans[waiting[p][0].block.hash] == waiting[p][0]
    ensures waiting[p][0].block.prev == p && Consistent(H, waiting[p][0].block)
  {
  }

  lemma OneFewer(orphans: Orphans, h: Hash)
    requires h in orphans
    ensures |orphans - {h}| == |orphans| - 1
  {
    assert (orphans - {h}).Keys == orphans.Keys - {h};
  }

  /** Storing a block that is not an orphan keeps the pool sound. */
  lemma MoreBlocks(H: Hash -> nat, orphans: Orphans, waiting: Waiting, known: set<Hash>, known': set<Hash>, h: Hash)
    requires PoolSound(H, orphans, waiting, known) && known' <= known + {h} && h !in orphans
    ensures PoolSound(H, orphans, waiting, known')
  {
  }

  /** The orphans that have not expired. */
  function Kept(orphans: Orphans, now: int): Orphans {
    map h | h in orphans && orphans[h].expiration >= now :: orphans[h]
  }

  lemma KeptExactly(before: Orphans, orphans: Orphans, now: int)
    requires forall h :: h in orphans <==> h in before && before[h].expiration >= now
    requires forall h :: h in orphans ==> orphans[h] == before[h]
    ensures orphans == Kept(before, now)
  {
  }

  lemma KeyOfOrphan(H: Hash -> nat, orphans: Orphans, waiting: Waiting, blocks: set<Hash>, h: Hash)
    requires PoolSound(H, orphans, waiting, blocks) && h in orphans
    ensures orphans[h].block.hash == h && Consistent(H, orphans[h].block) && h !in blocks
  {
  }

  /** The branch that b ends meets the main chain. */
  ghost predicate Meets(db: Db, b: Block, tip: Block) {
    MeetSomewhere(db.blocks[b.hash := b], b.prev, tip.hash)
  }

  ghost predicate MeetSomewhere(blocks: map<Hash, Block>, branch: Hash, main: Hash) {
    exists n :: MeetAt(blocks, branch, main, n)
  }

  /** The main chain's blocks above the meeting point have been replaced by the path to b's parent, and b. */
  ghost predicate Replaces(exec: Exec, regular: Regular, db: Db, db': Db, b: Block, tip: Block, path: seq<Hash>) {
    var stored := db.(blocks := db.blocks[b.hash := b]);
    && MeetAt(stored.blocks, b.prev, tip.hash, |path|) && PathOf(stored.blocks, b.prev, path)
    && path != [] && path[|path| - 1] in stored.blocks
    && Reorganized(exec, regular, stored, [b.hash] + path, stored.blocks[path[|path| - 1]].height) == Some(db')
  }

  lemma ReplacesBy(exec: Exec, regular: Regular, db: Db, db1: Db, db': Db, b: Block, tip: Block, path: seq<Hash>,
                   height: nat)
    requires db1 == db.(blocks := db.blocks[b.hash := b]) || (db1 == db && b.hash !in db.blocks)
    requires MeetAt(db1.blocks, b.prev, tip.hash, |path|) && PathOf(db1.blocks, b.prev, path)
    requires path != [] && path[|path| - 1] in db1.blocks && height == db1.blocks[path[|path| - 1]].height
    requires Reorganized(exec, regular, db1, [b.hash] + path, height) == Some(db')
    ensures exists p :: Replaces(exec, regular, db, db', b, tip, p)
  {
    hide MeetAt, PathOf, RollBack, OneOn;
    if db1 == db && b.hash !in db.blocks {
      NotReplayed(exec, regular, db, RollBack(db, db, height).value, [b.hash] + path);
      assert false;
    }
    assert Replaces(exec, regular, db, db', b, tip, path);
  }

  /** Some reorganisation puts b on top. */
  ghost predicate CanReplace(exec: Exec, regular: Regular, db: Db, b: Block, tip: Block) {
    exists path, db' :: Replaces(exec, regular, db, db', b, tip, path)
  }

  /** The path to the meeting point is unique, so the reorganisation that is tried is the only one there is. */
  lemma OnlyPath(exec: Exec, regular: Regular, db: Db, b: Block, tip: Block, r: Option<(seq<Hash>, nat)>)
    requires var blocks := db.blocks[b.hash := b];
             if r.Some? then
               && MeetAt(blocks, b.prev, tip.hash, |r.value.0|) && PathOf(blocks, b.prev, r.value.0)
               && (r.value.0 != [] ==> r.value.1 == blocks[r.value.0[|r.value.0| - 1]].height)
             else forall n :: !MeetAt(blocks, b.prev, tip.hash, n)
    ensures CanReplace(exec, regular, db, b, tip) ==>
              && r.Some?
              && Reorganized(exec, regular, db.(blocks := db.blocks[b.hash := b]), [b.hash] + r.value.0, r.value.1).Some?
  {
    hide Ancestor, Reorganized;
    var blocks := db.blocks[b.hash := b];
    if CanReplace(exec, regular, db, b, tip) {
      var path, db' :| Replaces(exec, regular, db, db', b, tip, path);
      assert MeetAt(blocks, b.prev, tip.hash, |path|);
      SameMeeting(blocks, b.prev, tip.hash, |path|, |r.value.0|);
      SamePath(blocks, b.prev, path, r.value.0);
    }
  }

  lemma MeetsBy(db: Db, b: Block, tip: Block, blocks: map<Hash, Block>, n: nat)
    requires blocks == db.blocks[b.hash := b]
    ensures MeetAt(blocks, b.prev, tip.hash, n) ==> Meets(db, b, tip)
    ensures (forall k :: !MeetAt(blocks, b.prev, tip.hash, k)) ==> !Meets(db, b, tip)
  {
    hide MeetAt;
  }

  lemma SamePath(blocks: map<Hash, Block>, branch: Hash, p: seq<Hash>, q: seq<Hash>)
    requires PathOf(blocks, branch, p) && PathOf(blocks, branch, q) && |p| == |q|
    ensures p == q
  {
    hide Ancestor;
    forall j | 0 <= j < |p| ensures p[j] == q[j] {
      assert Ancestor(blocks, branch, j) == Some(p[j]);
      assert Ancestor(blocks, branch, j) == Some(q[j]);
    }
  }

  lemma NotMetBefore(blocks: map<Hash, Block>, branch: Hash, main: Hash, n: nat, j: nat)
    requires MeetAt(blocks, branch, main, n) && j < n
    ensures Ancestor(blocks, branch, j) != Ancestor(blocks, main, j)
  {
    hide Ancestor;
  }

  lemma SameMeeting(blocks: map<Hash, Block>, branch: Hash, main: Hash, m: nat, n: nat)
    requires MeetAt(blocks, branch, main, m) && MeetAt(blocks, branch, main, n)
    ensures m == n
  {
    hide Ancestor;
    if m < n {
      NotMetBefore(blocks, branch, main, n, m);
      assert false;
    } else if n < m {
      NotMetBefore(blocks, branch, main, m, n);
      assert false;
    }
  }

  /** Blocks that are not stored cannot be replayed. */
  lemma {:induction false} NotReplayed(exec: Exec, regular: Regular, db: Db, tx: Db, hashes: seq<Hash>)
    requires hashes != [] && hashes[0] !in db.blocks
    ensures Replay(exec, regular, db, tx, hashes).None?
    decreases |hashes|
  {
    hide OneOn;
    var n := |hashes| - 1;
    if n > 0 && hashes[n] in db.blocks && OneOn(exec, tx, db.blocks[hashes[n]]).Some? {
      NotReplayed(exec, regular, db, OneOn(exec, tx, db.blocks[hashes[n]]).value, hashes[..n]);
    }
  }

  /** The main chain is as it was. */
  predicate SameMain(db: Db, db': Db) {
    && db'.height == db.height && db'.hashAt == db.hashAt && db'.snapAt == db.snapAt && db'.snapRoot == db.snapRoot
    && db'.txIndex == db.txIndex
  }

  /** The main chain is one block longer and ends with b. */
  predicate OnTop(db: Db, db': Db, b: Block) {
    && db'.MaxHeight() == db.MaxHeight() + 1
    && db'.MaxHeight() in db'.hashAt && db'.hashAt[db'.MaxHeight()] == b.hash
  }

  lemma TipExists(H: Hash -> nat, exec: Exec, db: Db)
    requires Sound(H, exec, db) && db.MaxHeight() >= Low
    ensures db.Tip().Some?
  {
    assert Linked(exec, db, db.MaxHeight());
  }

  lemma ExtendedTip(db: Db, b: Block, root: Root)
    ensures Extended(db, b, root).Tip() == Some(b.(snapRoot := root))
  {
    hide TxsIndexed;
  }

  /** A block that has been put on top is on the main chain as long as what it hangs on is. */
  lemma TopKept(H: Hash -> nat, db0: Db, db1: Db, db2: Db, b: Block)
    requires OnTop(db0, db1, b) && db0.MaxHeight() >= InitHeight
    ensures Keeps(db1, db2, b.hash) ==> OnMainAt(db2, b.hash)
    ensures db2 == db1 ==> OnTop(db0, db2, b)
  {
    MainBy(db1, b.hash, db1.MaxHeight());
    ReachesSelf(db1.blocks, b.hash);
  }

  lemma TipFacts(H: Hash -> nat, exec: Exec, db: Db)
    requires Sound(H, exec, db) && db.Tip().Some?
    ensures var tip := db.Tip().value;
            && tip.hash in db.blocks && db.hashAt[db.MaxHeight()] == tip.hash
            && H(tip.hash) == tip.height == db.MaxHeight()
  {
  }

  lemma StoredFacts(H: Hash -> nat, exec: Exec, db: Db, h: Hash)
    requires Sound(H, exec, db) && h in db.blocks
    ensures db.blocks[h].hash == h && H(h) == db.blocks[h].height
  {
  }

  lemma ExtendedOnTop(db: Db, b: Block, root: Root)
    requires Rooted(db) && b.hash !in db.blocks && (b.prev in db.blocks || b.height <= Low)
    requires b.height == db.MaxHeight() + 1
    ensures Rooted(Extended(db, b, root)) && OnTop(db, Extended(db, b, root), b)
    ensures Extended(db, b, root).blocks.Keys == db.blocks.Keys + {b.hash}
  {
    hide TxsIndexed;
  }

  lemma UncleRooted(db: Db, b: Block)
    requires Rooted(db) && b.hash !in db.blocks && b.prev in db.blocks
    ensures Rooted(db.(blocks := db.blocks[b.hash := b]))
  {
  }

  lemma UncleGone(db: Db, db': Db, b: Block)
    requires Rooted(db) && b.hash !in db.blocks && b.prev in db.blocks
    requires db'.blocks == db.blocks || db'.blocks == db.blocks[b.hash := b]
          || db'.blocks == db.blocks - {b.hash} || db'.blocks == db.blocks[b.hash := b] - {b.hash}
    ensures Rooted(db')
  {
    if db'.blocks == db.blocks[b.hash := b] {
      UncleRooted(db, b);
    }
  }

  lemma SameBlocksRooted(db: Db, db': Db, hashes: seq<Hash>)
    requires Rooted(db) && SameBlocks(db, db', hashes)
    ensures Rooted(db')
  {
    forall h | h in db'.blocks && db'.blocks[h].height > Low ensures db'.blocks[h].prev in db'.blocks {
      assert db'.blocks[h] == db.blocks[h].(snapRoot := db'.blocks[h].snapRoot);
    }
  }

  lemma SameBlocksKeys(db0: Db, db1: Db, db2: Db, hashes: seq<Hash>, b: Block)
    requires Rooted(db1) && SameBlocks(db1, db2, hashes)
    requires db1.blocks == db0.blocks || db1.blocks == db0.blocks[b.hash := b]
    ensures Rooted(db2) && db0.blocks.Keys <= db2.blocks.Keys <= db0.blocks.Keys + {b.hash}
  {
    hide Rooted;
    SameBlocksRooted(db1, db2, hashes);
  }

  /** After the reorganisation the first listed block is on top. */
  lemma BranchOnTop(H: Hash -> nat, exec: Exec, regular: Regular, db: Db, hashes: seq<Hash>, height: nat)
    requires Sound(H, exec, db) && Branch(db, hashes, height) && height + |hashes| == db.MaxHeight() + 2
    requires Reorganized(exec, regular, db, hashes, height).Some?
    ensures var db' := Reorganized(exec, regular, db, hashes, height).value;
            && db'.MaxHeight() == db.MaxHeight() + 1
            && db'.MaxHeight() in db'.hashAt && db'.hashAt[db'.MaxHeight()] == hashes[0]
            && SameBlocks(db, db', hashes)
  {
    hide Sound, Reorganized, SameBlocks;
    ReorganizedChain(H, exec, regular, db, hashes, height);
  }

  lemma ToppedOut(db0: Db, db1: Db, db2: Db, b: Block)
    requires db1.MaxHeight() == db0.MaxHeight() && db2.MaxHeight() == db1.MaxHeight() + 1
    requires db2.MaxHeight() in db2.hashAt && db2.hashAt[db2.MaxHeight()] == b.hash
    ensures OnTop(db0, db2, b)
  {
  }

  lemma SameMainKeeps(db: Db, db': Db, h: Hash)
    requires SameMain(db, db')
    ensures Keeps(db, db', h)
  {
    assert forall g :: OnMainAt(db, g) ==> OnMainAt(db', g);
  }

  lemma UncleParents(db: Db, b: Block)
    requires b.hash !in db.blocks
    ensures SameParents(db.blocks, db.blocks) && SameParents(db.blocks, db.blocks[b.hash := b])
    ensures SameParents(db.blocks, db.blocks[b.hash := b] - {b.hash}) && SameParents(db.blocks, db.blocks - {b.hash})
  {
  }

  lemma ExtendedKeeps(db: Db, b: Block, root: Root)
    requires b.hash !in db.blocks && b.height == db.MaxHeight() + 1
    ensures SameParents(db.blocks, Extended(db, b, root).blocks) && Keeps(db, Extended(db, b, root), b.prev)
    ensures b.hash in Extended(db, b, root).blocks && Extended(db, b, root).blocks[b.hash].prev == b.prev
  {
    hide TxsIndexed;
    var db' := Extended(db, b, root);
    forall g | OnMainAt(db, g) ensures OnMainAt(db', g) {
      var k :| Low <= k <= db.MaxHeight() && k in db.hashAt && db.hashAt[k] == g;
      assert k in db'.hashAt && db'.hashAt[k] == g;
    }
  }

  lemma {:induction false} SameAncestor(blocks: map<Hash, Block>, blocks': map<Hash, Block>, h: Hash, j: nat)
    requires SameParents(blocks, blocks') && Ancestor(blocks, h, j).Some?
    ensures Ancestor(blocks', h, j) == Ancestor(blocks, h, j)
    decreases j
  {
    if j > 0 {
      SameAncestor(blocks, blocks', h, j - 1);
    }
  }

  /** The walk back from the branch tip to a block of the main chain is no shorter than the one to the meeting point. */
  lemma MeetsAbove(H: Hash -> nat, exec: Exec, db: Db, branch: Hash, tip: Hash, n: nat, g: Hash, j: nat, k: nat)
    requires Sound(H, exec, db) && H(branch) == db.MaxHeight()
    requires db.MaxHeight() in db.hashAt && db.hashAt[db.MaxHeight()] == tip
    requires MeetAt(db.blocks, branch, tip, n) && Ancestor(db.blocks, branch, j) == Some(g)
    requires Low <= k <= db.MaxHeight() && k in db.hashAt && db.hashAt[k] == g
    ensures j == db.MaxHeight() - k && n <= j
  {
    hide Ancestor, Sound, MeetAt;
    SoundConsistent(H, exec, db);
    AncestorHeight(H, db, branch, j);
    MainHeight(H, db, k);
    AncestorOnMain(H, exec, db, j);
    if n > j {
      NotMetBefore(db.blocks, branch, tip, n, j);
      assert false;
    }
  }

  lemma MainHeight(H: Hash -> nat, db: Db, k: nat)
    requires BlocksConsistent(H, db) && k in db.hashAt
    ensures H(db.hashAt[k]) == k
  {
  }

  lemma BranchKeeps(H: Hash -> nat, exec: Exec, regular: Regular, db0: Db, db1: Db, db2: Db, b: Block, tip: Hash,
                    path: seq<Hash>, height: nat)
    requires db1.height == db0.height && db1.hashAt == db0.hashAt && SameParents(db0.blocks, db1.blocks)
    requires Sound(H, exec, db1) && H(b.prev) == db1.MaxHeight()
    requires db1.MaxHeight() in db1.hashAt && db1.hashAt[db1.MaxHeight()] == tip
    requires MeetAt(db1.blocks, b.prev, tip, |path|) && height + |path| == db1.MaxHeight() + 1
    requires Branch(db1, [b.hash] + path, height) && Reorganized(exec, regular, db1, [b.hash] + path, height) == Some(db2)
    ensures Keeps(db0, db2, b.prev)
  {
    hide Ancestor, Sound, MeetAt, SameParents, Branch, Reorganized, OnMainAt;
    ReorganizedChain(H, exec, regular, db1, [b.hash] + path, height);
    forall g | OnMainAt(db0, g) && Reaches(db0.blocks, b.prev, g) ensures OnMainAt(db2, g) {
      var j: nat :| Ancestor(db0.blocks, b.prev, j) == Some(g);
      SameAncestor(db0.blocks, db1.blocks, b.prev, j);
      var k := MainIndex(db0, g);
      MeetsAbove(H, exec, db1, b.prev, tip, |path|, g, j, k);
      BelowStays(db1, db2, height, k);
      MainBy(db2, g, k);
    }
  }

  lemma MainIndex(db: Db, g: Hash) returns (k: nat)
    requires OnMainAt(db, g)
    ensures Low <= k <= db.MaxHeight() && k in db.hashAt && db.hashAt[k] == g
  {
    k :| Low <= k <= db.MaxHeight() && k in db.hashAt && db.hashAt[k] == g;
  }

  lemma MainBy(db: Db, g: Hash, k: nat)
    requires Low <= k <= db.MaxHeight() && k in db.hashAt && db.hashAt[k] == g
    ensures OnMainAt(db, g)
  {
  }

  lemma BelowStays(db: Db, db': Db, height: nat, k: nat)
    requires Below(db'.hashAt, height) == Below(db.hashAt, height) && k < height && k in db.hashAt
    ensures k in db'.hashAt && db'.hashAt[k] == db.hashAt[k]
  {
    assert k in Below(db'.hashAt, height);
  }

  lemma SameBlocksParents(db: Db, db': Db, hashes: seq<Hash>)
    requires SameBlocks(db, db', hashes)
    ensures SameParents(db.blocks, db'.blocks)
  {
    forall h | h in db.blocks ensures h in db'.blocks && db'.blocks[h].prev == db.blocks[h].prev {
      assert db'.blocks[h] == db.blocks[h].(snapRoot := db'.blocks[h].snapRoot);
    }
  }

  lemma ParentsTwice(blocks: map<Hash, Block>, blocks1: map<Hash, Block>, blocks2: map<Hash, Block>)
    requires SameParents(blocks, blocks1) && SameParents(blocks1, blocks2)
    ensures SameParents(blocks, blocks2)
  {
  }

  /** The first listed block has been stored for the reorganisation to succeed. */
  lemma TopStored(exec: Exec, regular: Regular, db1: Db, db2: Db, b: Block, hashes: seq<Hash>, height: nat)
    requires hashes != [] && hashes[0] == b.hash && (b.hash in db1.blocks ==> db1.blocks[b.hash] == b)
    requires Reorganized(exec, regular, db1, hashes, height) == Some(db2) && SameBlocks(db1, db2, hashes)
    ensures b.hash in db2.blocks && db2.blocks[b.hash].prev == b.prev
  {
    hide RollBack, Replay;
    if b.hash !in db1.blocks {
      NotReplayed(exec, regular, db1, RollBack(db1, db1, height).value, hashes);
      assert false;
    }
    assert db2.blocks[b.hash] == db1.blocks[b.hash].(snapRoot := db2.blocks[b.hash].snapRoot);
  }

  /** What a successful reorganisation to the branch of b has done. */
  lemma BranchReplaced(H: Hash -> nat, exec: Exec, regular: Regular, db0: Db, db1: Db, db2: Db, b: Block, tip: Block,
                       path: seq<Hash>, height: nat)
    requires db1 == db0.(blocks := db0.blocks[b.hash := b]) || (db1 == db0 && b.hash !in db0.blocks)
    requires MeetAt(db1.blocks, b.prev, tip.hash, |path|) && PathOf(db1.blocks, b.prev, path)
    requires path != [] && path[|path| - 1] in db1.blocks && height == db1.blocks[path[|path| - 1]].height
    requires Sound(H, exec, db1) && Rooted(db1)
    requires Branch(db1, [b.hash] + path, height) && height + |path| == db1.MaxHeight() + 1
    requires H(b.prev) == db1.MaxHeight() && db1.MaxHeight() in db1.hashAt
    requires db1.hashAt[db1.MaxHeight()] == tip.hash && b.hash !in db0.blocks
    requires Reorganized(exec, regular, db1, [b.hash] + path, height) == Some(db2)
    ensures Rooted(db2) && db0.blocks.Keys <= db2.blocks.Keys <= db0.blocks.Keys + {b.hash}
    ensures OnTop(db0, db2, b) && exists p :: Replaces(exec, regular, db0, db2, b, tip, p)
    ensures b.hash in db2.blocks && db2.blocks[b.hash].prev == b.prev
    ensures SameParents(db0.blocks, db2.blocks) && Keeps(db0, db2, b.prev)
  {
    hide Replaces, Sound, Rooted, Branch, MeetAt, PathOf, OnTop, Reorganized, SameBlocks, Keeps, SameParents, Ancestor;
    var hashes := [b.hash] + path;
    BranchOnTop(H, exec, regular, db1, hashes, height);
    SameBlocksKeys(db0, db1, db2, hashes, b);
    ToppedOut(db0, db1, db2, b);
    ReplacesBy(exec, regular, db0, db1, db2, b, tip, path, height);
    UncleParents(db0, b);
    SameBlocksParents(db1, db2, hashes);
    ParentsTwice(db0.blocks, db1.blocks, db2.blocks);
    BranchKeeps(H, exec, regular, db0, db1, db2, b, tip.hash, path, height);
    TopStored(exec, regular, db1, db2, b, hashes, height);
  }

  lemma UncleSame(db: Db, b: Block)
    requires b.hash !in db.blocks
    ensures SameMain(db, db) && SameMain(db, db.(blocks := db.blocks[b.hash := b]))
    ensures SameMain(db, db.(blocks := db.blocks[b.hash := b]).(blocks := db.blocks[b.hash := b] - {b.hash}))
    ensures SameMain(db, db.(blocks := db.blocks - {b.hash}))
    ensures db.blocks - {b.hash} == db.blocks && db.blocks[b.hash := b] - {b.hash} == db.blocks
  {
  }

  lemma SameTables(db: Db, db': Db)
    ensures SameMain(db, db') && db'.blocks == db.blocks ==> db' == db
  {
  }

  lemma AboveMain(H: Hash -> nat, exec: Exec, db: Db, b: Block)
    requires Sound(H, exec, db) && H(b.hash) > db.MaxHeight()
    ensures !OnMain(db, b.hash)
  {
  }

  /** The list that maybeAcceptBlock hands to ReorganizeChain is a branch of the main chain. */
  lemma BranchFound(H: Hash -> nat, exec: Exec, db: Db, b: Block, tip: Hash, path: seq<Hash>)
    requires Sound(H, exec, db) && db.MaxHeight() in db.hashAt && db.hashAt[db.MaxHeight()] == tip
    requires b.prev in db.blocks && H(b.prev) == db.MaxHeight() && b.prev != tip
    requires b.hash in db.blocks ==> db.blocks[b.hash] == b
    requires MeetAt(db.blocks, b.prev, tip, |path|) && PathOf(db.blocks, b.prev, path)
    ensures path != [] && path[|path| - 1] in db.blocks
    ensures var height := db.blocks[path[|path| - 1]].height;
            Branch(db, [b.hash] + path, height) && height + |path| == db.MaxHeight() + 1
  {
    hide MainChain, IndexSound;
    assert Ancestor(db.blocks, b.prev, 0) == Some(b.prev) && Ancestor(db.blocks, tip, 0) == Some(tip);
    var n := |path|;
    assert n > 0;
    var last := path[n - 1];
    AncestorHeight(H, db, b.prev, n - 1);
    var height := db.blocks[last].height;
    assert height == db.MaxHeight() - (n - 1);
    ListChained(db, b, path);
    assert Ancestor(db.blocks, b.prev, n) == Some(db.blocks[last].prev);
    if height > Low {
      AncestorOnMain(H, exec, db, n);
    }
  }

  lemma ListChained(db: Db, b: Block, path: seq<Hash>)
    requires PathOf(db.blocks, b.prev, path) && (b.hash in db.blocks ==> db.blocks[b.hash] == b)
    ensures Chained(db, [b.hash] + path)
  {
    var all := [b.hash] + path;
    forall i, j | 0 <= i && j == i + 1 && j < |all| && all[i] in db.blocks ensures db.blocks[all[i]].prev == all[j] {
      if i == 0 {
        assert Ancestor(db.blocks, b.prev, 0) == Some(path[0]);
      } else {
        assert Ancestor(db.blocks, b.prev, i - 1) == Some(path[i - 1]);
        assert Ancestor(db.blocks, b.prev, i) == Some(path[i]);
      }
    }
  }
}
