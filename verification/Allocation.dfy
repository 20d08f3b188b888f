/** Runs of create_chain and remove_chain. The contract is the conservation law of the
    allocator: the chains it has handed out stay disjoint and end-marked, clusters are
    neither lost nor handed out twice, and the free count is right throughout. */
module Allocation {
  import opened Bytes
  import opened Chains
  import opened FileSystem

  datatype Request = Start | Stretch(which: nat) | Remove(which: nat)

  /** Chains of a well-formed table that begin at different heads, and a free count that is
      right if it is known. */
  ghost predicate Books(fat: seq<nat>, chains: seq<seq<nat>>, free: Word) {
    && WellFormed(fat)
    && (forall i :: 0 <= i < |chains| ==> IsChain(fat, chains[i]) && IsHead(fat, chains[i][0]))
    && (forall i, j :: 0 <= i < j < |chains| ==> chains[i][0] != chains[j][0])
    && (free != UNKNOWN ==> free == Free(fat))
  }

  /** Such chains share no cluster. */
  lemma BooksDisjoint(fat: seq<nat>, chains: seq<seq<nat>>, free: Word, i: nat, j: nat, c: nat)
    requires Books(fat, chains, free) && i < j < |chains| && c in chains[i]
    ensures c !in chains[j]
  {
    var a, b := chains[i], chains[j];
    var k :| 0 <= k < |a| && a[k] == c;
    forall m | 0 <= m < |b|
      ensures b[m] != c
    {
      HeadsDisjoint(fat, a, b, k, m);
    }
  }

  function Total(chains: seq<seq<nat>>): nat {
    if chains == [] then 0 else Total(chains[..|chains| - 1]) + |chains[|chains| - 1]|
  }

  lemma {:induction false} TotalAt(chains: seq<seq<nat>>, i: nat, ch: seq<nat>)
    requires i < |chains|
    ensures Total(chains[i := ch]) + |chains[i]| == Total(chains) + |ch|
  {
    var n := |chains| - 1;
    if i < n {
      TotalAt(chains[..n], i, ch);
      assert chains[i := ch][..n] == chains[..n][i := ch];
    } else {
      assert chains[i := ch][..n] == chains[..n];
    }
  }

  function Without(chains: seq<seq<nat>>, i: nat): seq<seq<nat>>
    requires i < |chains|
  {
    chains[..i] + chains[i + 1..]
  }

  lemma {:induction false} TotalWithout(chains: seq<seq<nat>>, i: nat)
    requires i < |chains|
    ensures Total(Without(chains, i)) + |chains[i]| == Total(chains)
  {
    var n := |chains| - 1;
    if i < n {
      TotalWithout(chains[..n], i);
      var w := Without(chains, i);
      assert w[..|w| - 1] == Without(chains[..n], i);
    } else {
      assert Without(chains, i) == chains[..n];
    }
  }

  /** No link leads to a free cluster. */
  lemma FreeIsHead(fat: seq<nat>, n: nat)
    requires WellFormed(fat) && IsCluster(fat, n) && fat[n] == 0
    ensures IsHead(fat, n)
  {
    forall d | IsCluster(fat, d)
      ensures fat[d] != n
    {
      assert fat[d] != 0 ==> GoodLink(fat, d);
    }
  }

  lemma AfterStart(fat: seq<nat>, chains: seq<seq<nat>>, free: Word, n: nat, mark: nat)
    requires Books(fat, chains, free) && IsCluster(fat, n) && fat[n] == 0 && mark >= |fat|
    ensures Books(Started(fat, n, mark), chains + [[n]], Lowered(free))
    ensures Free(Started(fat, n, mark)) + 1 == Free(fat)
  {
    hide WellFormed;
    var fat' := Started(fat, n, mark);
    StartedWellFormed(fat, n, mark);
    StartedChains(fat, n, mark);
    FreeIsHead(fat, n);
    FreeUpdate(fat, n, mark);
    forall i | 0 <= i < |chains|
      ensures IsChain(fat', chains[i]) && IsHead(fat', chains[i][0]) && chains[i][0] != n
    {
      LinkAt(fat, chains[i], 0);
    }
  }

  lemma AfterStretch(fat: seq<nat>, chains: seq<seq<nat>>, free: Word, i: nat, n: nat, mark: nat)
    requires Books(fat, chains, free) && i < |chains| && IsCluster(fat, n) && fat[n] == 0 && mark >= |fat|
    ensures var ch := chains[i];
      var fat' := Stretched(fat, ch[|ch| - 1], n, mark);
      && Books(fat', chains[i := ch + [n]], Lowered(free)) && Free(fat') + 1 == Free(fat)
  {
    hide WellFormed;
    var ch := chains[i];
    var c := ch[|ch| - 1];
    var fat' := Stretched(fat, c, n, mark);
    LinkAt(fat, ch, |ch| - 1);
    StretchedWellFormed(fat, c, n, mark);
    FreeIsHead(fat, n);
    FreeUpdate(fat, n, mark);
    FreeUpdate(fat[n := mark], c, n);
    forall j | 0 <= j < |chains|
      ensures IsChain(fat', chains[i := ch + [n]][j]) && IsHead(fat', chains[j][0])
    {
      LinkAt(fat, chains[j], 0);
      StretchedChains(fat, c, n, mark, chains[j]);
      if j != i {
        if i < j { BooksDisjoint(fat, chains, free, i, j, c); }
        else if c in chains[j] { BooksDisjoint(fat, chains, free, j, i, c); }
      }
    }
  }

  lemma AfterRemove(fat: seq<nat>, chains: seq<seq<nat>>, free: Word, i: nat)
    requires Books(fat, chains, free) && i < |chains| && |fat| <= 0xFFF7
    ensures Books(Cleared(fat, chains[i]), Without(chains, i), Raised(free, |chains[i]|))
    ensures Free(Cleared(fat, chains[i])) == Free(fat) + |chains[i]|
  {
    hide WellFormed;
    var ch := chains[i];
    var fat' := Cleared(fat, ch);
    RemovedChain(fat, ch);
    RemovedWellFormed(fat, ch);
    FreeBound(fat');
    if free != UNKNOWN {
      RaisedSum(free, |ch|);
    } else {
      RaisedUnknown(|ch|);
    }
    forall j | 0 <= j < |chains| && j != i
      ensures IsChain(fat', chains[j]) && IsHead(fat', chains[j][0])
    {
      LinkAt(fat, chains[j], 0);
      forall c | c in chains[j]
        ensures c !in ch
      {
        if j < i { BooksDisjoint(fat, chains, free, j, i, c); }
        else if c in ch { BooksDisjoint(fat, chains, free, i, j, c); }
      }
      RemovedOthers(fat, ch, chains[j]);
    }
  }

  lemma FreeBound(fat: seq<nat>)
    ensures Free(fat) <= |fat|
  {
  }

  lemma {:induction false} RaisedUnknown(n: nat)
    ensures Raised(UNKNOWN, n) == UNKNOWN
  {
  }

  // ----- what a run of requests does

  /** How long the chains are, and how many clusters are free. */
  datatype Ledger = Ledger(lengths: seq<nat>, free: nat)

  /** What a request does to it: one for a chain that is not there, or for a cluster when
      none is free, is passed over. */
  function Served(l: Ledger, req: Request): Ledger {
    match req
    case Start => if l.free == 0 then l else Ledger(l.lengths + [1], l.free - 1)
    case Stretch(i) =>
      if i >= |l.lengths| || l.free == 0 then l else Ledger(l.lengths[i := l.lengths[i] + 1], l.free - 1)
    case Remove(i) =>
      if i >= |l.lengths| then l else Ledger(l.lengths[..i] + l.lengths[i + 1..], l.free + l.lengths[i])
  }

  function ServedAll(l: Ledger, reqs: seq<Request>): Ledger {
    if reqs == [] then l else Served(ServedAll(l, reqs[..|reqs| - 1]), reqs[|reqs| - 1])
  }

  function Lengths(chains: seq<seq<nat>>): seq<nat> {
    seq(|chains|, i requires 0 <= i < |chains| => |chains[i]|)
  }

  /** One cluster more: a free one becomes the end of chain i or a chain of its own. */
  ghost predicate Taken(fat: seq<nat>, fat': seq<nat>, chains: seq<seq<nat>>, chains': seq<seq<nat>>, i: nat, n: nat,
          mark: nat)
    requires i < |chains| ==> chains[i] != []
  {
    && IsCluster(fat, n) && fat[n] == 0 && (i < |chains| ==> IsCluster(fat, chains[i][|chains[i]| - 1]))
    && if i < |chains|
       then chains' == chains[i := chains[i] + [n]] && fat' == Stretched(fat, chains[i][|chains[i]| - 1], n, mark)
       else chains' == chains + [[n]] && fat' == Started(fat, n, mark)
  }

  lemma TakenIsServed(chains: seq<seq<nat>>, chains': seq<seq<nat>>, i: nat, n: nat, req: Request, free: nat)
    requires chains' == if i < |chains| then chains[i := chains[i] + [n]] else chains + [[n]]
    requires (req == Start && i == |chains|) || (req == Stretch(i) && i < |chains|)
    requires free > 0
    ensures Ledger(Lengths(chains'), free - 1) == Served(Ledger(Lengths(chains), free), req)
  {
  }

  lemma GivenBackIsServed(chains: seq<seq<nat>>, i: nat, free: nat)
    requires i < |chains|
    ensures Ledger(Lengths(Without(chains, i)), free + |chains[i]|)
         == Served(Ledger(Lengths(chains), free), Remove(i))
  {
    var after := Served(Ledger(Lengths(chains), free), Remove(i));
    assert Lengths(Without(chains, i)) == after.lengths;
  }

  /** Serves requests one after the other. Unless the disk fails, each does what it should:
      chains and free clusters are those of the ledger, the books stay right, and free
      clusters and clusters handed out add up to the same sum. */
  method ServeAll(fs: FATFS, requests: seq<Request>, chains0: seq<seq<nat>>) returns (ok: bool, chains: seq<seq<nat>>)
    requires fs.Valid() && Books(fs.Fat(), chains0, fs.freeClust)
    modifies fs`winsect, fs`winflag, fs`freeClust, fs`lastClust, fs.win, fs.disk
    ensures fs.Valid() && fs.Store() == old(fs.Store())
    ensures !ok ==> fs.disk.Faults() > old(fs.disk.Faults())
    ensures ok ==> Books(fs.Fat(), chains, fs.freeClust)
    ensures ok ==>
      Ledger(Lengths(chains), Free(fs.Fat())) == ServedAll(Ledger(Lengths(chains0), old(Free(fs.Fat()))), requests)
    ensures ok ==> Free(fs.Fat()) + Total(chains) == old(Free(fs.Fat())) + Total(chains0)
  {
    hide FATFS.Fat, FATFS.Store, FATFS.Valid, Books, Free, Lengths, Served;
    chains := chains0;
    ghost var start := Ledger(Lengths(chains0), Free(fs.Fat()));
    for k := 0 to |requests|
      invariant fs.Valid() && fs.SameDisk() && fs.Store() == old(fs.Store()) && Books(fs.Fat(), chains, fs.freeClust)
      invariant Ledger(Lengths(chains), Free(fs.Fat())) == ServedAll(start, requests[..k])
      invariant Free(fs.Fat()) + Total(chains) == old(Free(fs.Fat())) + Total(chains0)
    {
      assert requests[..k + 1][..k] == requests[..k];
      ok, chains := ServeOne(fs, requests[k], chains);
      if !ok { return; }
    }
    assert requests[..|requests|] == requests;
    ok := true;
  }

  method ServeOne(fs: FATFS, request: Request, chains0: seq<seq<nat>>) returns (ok: bool, chains: seq<seq<nat>>)
    requires fs.Valid() && Books(fs.Fat(), chains0, fs.freeClust)
    modifies fs`winsect, fs`winflag, fs`freeClust, fs`lastClust, fs.win, fs.disk
    ensures fs.Valid() && fs.SameDisk() && fs.Store() == old(fs.Store())
    ensures !ok ==> fs.disk.Faults() > old(fs.disk.Faults())
    ensures ok ==> Books(fs.Fat(), chains, fs.freeClust)
    ensures ok ==>
      Ledger(Lengths(chains), Free(fs.Fat())) == Served(Ledger(Lengths(chains0), old(Free(fs.Fat()))), request)
    ensures ok ==> Free(fs.Fat()) + Total(chains) == old(Free(fs.Fat())) + Total(chains0)
  {
    hide FATFS.Fat, FATFS.Store, FATFS.Valid, Books, Free;
    ok, chains := true, chains0;
    match request {
      case Start =>
        ok, chains := Take(fs, chains0, |chains0|, request);
      case Stretch(i) =>
        if i < |chains0| { ok, chains := Take(fs, chains0, i, request); }
      case Remove(i) =>
        if i < |chains0| {
          GivenBackIsServed(chains0, i, Free(fs.Fat()));
          ok, chains := GiveBack(fs, chains0, i);
        }
    }
  }

  lemma NoneIsFree(fat: seq<nat>)
    requires NoneFreeIn(fat, 2, |fat|)
    ensures Free(fat) == 0
  {
    NoneFree(fat, 2);
  }

  /** One more cluster, for chain i or for a new one. */
  method Take(fs: FATFS, chains0: seq<seq<nat>>, i: nat, ghost req: Request) returns (ok: bool, chains: seq<seq<nat>>)
    requires fs.Valid() && Books(fs.Fat(), chains0, fs.freeClust) && i <= |chains0|
    requires req == if i < |chains0| then Stretch(i) else Start
    modifies fs`winsect, fs`winflag, fs`freeClust, fs`lastClust, fs.win, fs.disk
    ensures fs.Valid() && fs.SameDisk() && fs.Store() == old(fs.Store())
    ensures !ok ==> fs.disk.Faults() > old(fs.disk.Faults())
    ensures ok ==> Books(fs.Fat(), chains, fs.freeClust)
    ensures ok ==>
      if old(Free(fs.Fat())) == 0 then chains == chains0 && fs.Fat() == old(fs.Fat())
      else exists n, mark :: Taken(old(fs.Fat()), fs.Fat(), chains0, chains, i, n, mark)
    ensures ok ==> Ledger(Lengths(chains), Free(fs.Fat())) == Served(Ledger(Lengths(chains0), old(Free(fs.Fat()))), req)
    ensures ok ==> Free(fs.Fat()) + Total(chains) == old(Free(fs.Fat())) + Total(chains0)
  {
    hide FATFS.Fat, FATFS.Store, FATFS.Valid, WellFormed, Free, NoneFreeIn, Lengths;
    ghost var fat, free := fs.Fat(), fs.freeClust;
    var clust := 0;
    if i < |chains0| {
      var ch := chains0[i];
      clust := ch[|ch| - 1];
      LinkAt(fat, ch, |ch| - 1);
    }
    NeverRefused(fat, clust);
    var n := fs.CreateChain(clust);
    if n < 2 {
      if n == 0 {
        NoneIsFree(fat);
      }
      return n == 0, chains0;
    }
    ok := true;
    if i < |chains0| {
      AfterStretch(fat, chains0, free, i, n, fs.g.EndMark());
      TotalAt(chains0, i, chains0[i] + [n]);
      chains := chains0[i := chains0[i] + [n]];
    } else {
      AfterStart(fat, chains0, free, n, fs.g.EndMark());
      chains := chains0 + [[n]];
      assert chains[..|chains| - 1] == chains0;
    }
    TakenIsServed(chains0, chains, i, n, req, Free(fat));
    assert Taken(fat, fs.Fat(), chains0, chains, i, n, fs.g.EndMark());
  }

  /** Chain i is freed. */
  method GiveBack(fs: FATFS, chains0: seq<seq<nat>>, i: nat) returns (ok: bool, chains: seq<seq<nat>>)
    requires fs.Valid() && Books(fs.Fat(), chains0, fs.freeClust) && i < |chains0|
    modifies fs`winsect, fs`winflag, fs`freeClust, fs`lastClust, fs.win, fs.disk
    ensures fs.Valid() && fs.SameDisk() && fs.Store() == old(fs.Store())
    ensures !ok ==> fs.disk.Faults() > old(fs.disk.Faults())
    ensures ok ==> Books(fs.Fat(), chains, fs.freeClust)
    ensures ok ==> chains == Without(chains0, i) && fs.Fat() == Cleared(old(fs.Fat()), chains0[i])
    ensures ok ==> Free(fs.Fat()) == old(Free(fs.Fat())) + |chains0[i]|
    ensures ok ==> Free(fs.Fat()) + Total(chains) == old(Free(fs.Fat())) + Total(chains0)
  {
    hide FATFS.Fat, FATFS.Store, FATFS.Valid, WellFormed, Free;
    ghost var fat, free := fs.Fat(), fs.freeClust;
    RemovedChain(fat, chains0[i]);
    TableSize(fs);
    AfterRemove(fat, chains0, free, i);
    TotalWithout(chains0, i);
    ok := fs.RemoveChain(chains0[i][0]);
    chains := Without(chains0, i);
  }

  lemma TableSize(fs: FATFS)
    requires fs.Valid()
    ensures |fs.Fat()| <= 0xFFF7
  {
  }
}
