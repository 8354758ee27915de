/** From the switches to the decoder: flows whose fragments the switches stored are found, what is reported of cells
    that hold one flow's fragments is that flow, and whatever is reported goes back to packets at k switches. */
module Network {
  import opened Bytes
  import opened Items
  import opened AHeapSpec
  import opened Generator
  import opened Codec
  import opened Combos
  import opened DecoderSpec
  import opened SearchSpec
  import opened SearchRuns
  import opened MixedRuns
  import opened Switch

  /** Cell i of cache c is in use and stores the switch's own fragment of the flow. */
  ghost predicate HoldsSegment(job: Job, flow: Key, fullLen: nat, c: nat, i: nat) {
    && flow != [] && 0 < job.k <= 256 && c < |job.caches| && i < |job.caches[c].cells| && job.caches[c].id < 256
    && job.caches[c].cells[i].count != 0
    && job.caches[c].cells[i].key == Segment(job.L, flow, job.k, fullLen, job.caches[c].id)
  }

  /** So does every cell of `cfg`. */
  ghost predicate HoldsSegments(job: Job, cfg: Config, flow: Key, fullLen: nat) {
    |cfg.js| == |cfg.ps| && forall u | 0 <= u < |cfg.js| :: HoldsSegment(job, flow, fullLen, cfg.js[u], cfg.ps[u])
  }

  /** Key and code lengths as the switches and the decoder agree on them. */
  ghost predicate SameLengths(job: Job, flow: Key, fullLen: nat) {
    flow != [] && |flow| == job.keyLen && job.k > 0 && job.len == fullLen / job.k && job.keyLen <= job.k * job.len
  }

  lemma CodedFront(job: Job, flow: Key, fullLen: nat)
    requires SameLengths(job, flow, fullLen)
    ensures Coded(flow, job.k, fullLen)[..job.keyLen] == flow
  {
    SegmentLength(job.k, fullLen);
    PaddedFront(flow, fullLen);
    assert Coded(flow, job.k, fullLen)[..job.keyLen] == Padded(flow, fullLen)[..job.keyLen];
  }

  lemma SegmentsAreFragments(job: Job, cfg: Config, flow: Key, fullLen: nat)
    requires SameLengths(job, flow, fullLen) && job.k <= 256 && HoldsSegments(job, cfg, flow, fullLen)
    ensures HoldsFragments(job, cfg, Coded(flow, job.k, fullLen))
  {
    forall u | 0 <= u < |cfg.js|
      ensures HoldsFragment(job, Coded(flow, job.k, fullLen), cfg.js[u], cfg.ps[u])
    {
      assert HoldsSegment(job, flow, fullLen, cfg.js[u], cfg.ps[u]);
    }
  }

  /** A flow whose fragments sit in k switches' tables, in cells on its branch, is found in all k of them. */
  lemma FlowFound(job: Job, cfg: Config, flow: Key, fullLen: nat) returns (x: nat)
    requires ValidJob(job) && SameLengths(job, flow, fullLen)
    requires |cfg.js| == job.k && Ascending(cfg.js) && Below(cfg.js, |job.caches|)
    requires HoldsSegments(job, cfg, flow, fullLen) && OnOneBranch(job.m, job.home(flow), cfg.ps)
    ensures forall u | 0 <= u < job.k :: Found(job, x, cfg.js[u], cfg.ps[u], flow)
  {
    CodedFront(job, flow, fullLen);
    SegmentsAreFragments(job, cfg, flow, fullLen);
    x := DecodeComplete(job, cfg, flow, Coded(flow, job.k, fullLen));
  }

  /** Cells that back a report and store fragments of one flow back that flow. */
  lemma BackedFlow(job: Job, cfg: Config, full: Key, c: nat, i: nat, item: Item, flow: Key, fullLen: nat)
    requires ValidJob(job) && Backs(job, cfg, full, c, i, item) && SameLengths(job, flow, fullLen)
             && HoldsSegments(job, cfg, flow, fullLen)
    ensures item.key == flow
  {
    SegmentsAreFragments(job, cfg, flow, fullLen);
    CodedFront(job, flow, fullLen);
    assert full == Coded(flow, job.k, fullLen);
  }

  /** What is reported of k cells that all store fragments of one flow is that flow. */
  lemma ReportIsFlow(job: Job, c: nat, i: nat, fullLen: nat) returns (cfg: Config)
    requires ValidJob(job) && At(Decoded(job), c, i).count != 0
    ensures |cfg.js| == |cfg.ps| == job.k && Hits(cfg.js, cfg.ps, c, i)
    ensures forall flow | SameLengths(job, flow, fullLen) && HoldsSegments(job, cfg, flow, fullLen) ::
              At(Decoded(job), c, i).key == flow
  {
    var full;
    cfg, full := DecodeSound(job, c, i);
    forall flow | SameLengths(job, flow, fullLen) && HoldsSegments(job, cfg, flow, fullLen)
      ensures At(Decoded(job), c, i).key == flow
    {
      BackedFlow(job, cfg, full, c, i, At(Decoded(job), c, i), flow, fullLen);
    }
  }

  // ----- tables filled by the switches

  /** What the switch of cache c stores for a flow. */
  ghost function StoredBy(job: Job, fullLen: nat, c: nat): Key -> Key {
    key => if key != [] && 0 < job.k <= 256 && c < |job.caches| && job.caches[c].id < 256
           then Segment(job.L, key, job.k, fullLen, job.caches[c].id) else []
  }

  /** Cache c is the table of its switch after the packets runs[c], under any mix of the insertion modes. */
  ghost predicate FilledOne(job: Job, fullLen: nat, runs: seq<seq<Arrival>>, c: nat) {
    && c < |job.caches| == |runs| && job.caches[c].cells == TableOf(job.m, job.home, StoredBy(job, fullLen, c), runs[c])
    && forall x | 0 <= x < |runs[c]| :: |runs[c][x].flow| == job.keyLen
  }

  ghost predicate FilledBy(job: Job, fullLen: nat, runs: seq<seq<Arrival>>) {
    && job.keyLen > 0 && job.k > 0 && job.len == fullLen / job.k
    && |runs| == |job.caches| && forall c: nat | c < |runs| :: FilledOne(job, fullLen, runs, c)
  }

  ghost predicate Arrived(runs: seq<seq<Arrival>>, c: nat, flow: Key) {
    c < |runs| && exists x :: 0 <= x < |runs[c]| && runs[c][x].flow == flow
  }

  /** Cell i of cache c holds the fragment of a flow that arrived at its switch and whose branch passes through the
      cell. */
  ghost predicate Came(job: Job, fullLen: nat, runs: seq<seq<Arrival>>, c: nat, i: nat, flow: Key) {
    Arrived(runs, c, flow) && Passes(job.m, job.home(flow), i) && HoldsSegment(job, flow, fullLen, c, i)
  }

  lemma CacheIs(job: Job, fullLen: nat, runs: seq<seq<Arrival>>, c: nat)
    requires ValidJob(job) && FilledBy(job, fullLen, runs) && c < |runs|
    ensures FilledOne(job, fullLen, runs, c) && job.caches[c].id < 256
  {
    assert Ids(job.caches)[c] < job.k + job.p;
  }

  lemma StoredIs(job: Job, fullLen: nat, c: nat, flow: Key)
    requires flow != [] && 0 < job.k <= 256 && c < |job.caches| && job.caches[c].id < 256
    ensures StoredBy(job, fullLen, c)(flow) == Segment(job.L, flow, job.k, fullLen, job.caches[c].id)
  {
  }

  lemma CellCame(job: Job, fullLen: nat, runs: seq<seq<Arrival>>, c: nat, i: nat) returns (flow: Key)
    requires ValidJob(job) && FilledBy(job, fullLen, runs) && c < |job.caches| && i < |job.caches[c].cells|
    requires job.caches[c].cells[i].count != 0
    ensures Came(job, fullLen, runs, c, i, flow)
  {
    CacheIs(job, fullLen, runs, c);
    var seg, cells := StoredBy(job, fullLen, c), job.caches[c].cells;
    FragmentsTraceable(job.m, job.home, seg, runs[c]);
    assert TraceableItem(job.m, job.home, seg, runs[c], cells[i], i);
    var x: nat :| ComesFrom(job.m, job.home, seg, runs[c], x, cells[i].key, i);
    flow := runs[c][x].flow;
    assert |flow| == job.keyLen;
    StoredIs(job, fullLen, c, flow);
  }

  lemma ArrivedLengths(job: Job, fullLen: nat, runs: seq<seq<Arrival>>, c: nat, flow: Key)
    requires ValidJob(job) && FilledBy(job, fullLen, runs) && Arrived(runs, c, flow)
    ensures SameLengths(job, flow, fullLen)
  {
    assert FilledOne(job, fullLen, runs, c);
  }

  /** One flow accounts for all cells of cfg. */
  ghost predicate AllCame(job: Job, fullLen: nat, runs: seq<seq<Arrival>>, cfg: Config, flow: Key) {
    |cfg.js| == |cfg.ps| && forall u | 0 <= u < |cfg.js| :: Came(job, fullLen, runs, cfg.js[u], cfg.ps[u], flow)
  }

  lemma AllCameSegments(job: Job, fullLen: nat, runs: seq<seq<Arrival>>, cfg: Config, flow: Key)
    requires ValidJob(job) && FilledBy(job, fullLen, runs) && AllCame(job, fullLen, runs, cfg, flow) && cfg.js != []
    ensures SameLengths(job, flow, fullLen) && HoldsSegments(job, cfg, flow, fullLen)
  {
    assert Came(job, fullLen, runs, cfg.js[0], cfg.ps[0], flow);
    ArrivedLengths(job, fullLen, runs, cfg.js[0], flow);
    forall u | 0 <= u < |cfg.js| ensures HoldsSegment(job, flow, fullLen, cfg.js[u], cfg.ps[u]) {
      assert Came(job, fullLen, runs, cfg.js[u], cfg.ps[u], flow);
    }
  }

  ghost predicate SomeCame(job: Job, fullLen: nat, runs: seq<seq<Arrival>>, c: nat, i: nat) {
    exists flow :: Came(job, fullLen, runs, c, i, flow)
  }

  /** Some flow accounts for each cell of cfg. */
  ghost predicate EachCame(job: Job, fullLen: nat, runs: seq<seq<Arrival>>, cfg: Config) {
    |cfg.js| == |cfg.ps| && forall u | 0 <= u < |cfg.js| :: SomeCame(job, fullLen, runs, cfg.js[u], cfg.ps[u])
  }

  lemma CellSomeCame(job: Job, fullLen: nat, runs: seq<seq<Arrival>>, c: nat, i: nat)
    requires ValidJob(job) && FilledBy(job, fullLen, runs) && c < |job.caches| && i < |job.caches[c].cells|
    requires job.caches[c].cells[i].count != 0
    ensures SomeCame(job, fullLen, runs, c, i)
  {
    var flow := CellCame(job, fullLen, runs, c, i);
  }

  predicate InUse(job: Job, c: nat, i: nat) {
    c < |job.caches| && i < |job.caches[c].cells| && job.caches[c].cells[i].count != 0
  }

  ghost predicate AllInUse(job: Job, cfg: Config) {
    |cfg.js| == |cfg.ps| && forall u | 0 <= u < |cfg.js| :: InUse(job, cfg.js[u], cfg.ps[u])
  }

  lemma CellsCame(job: Job, fullLen: nat, runs: seq<seq<Arrival>>, cfg: Config)
    requires ValidJob(job) && FilledBy(job, fullLen, runs) && AllInUse(job, cfg)
    ensures EachCame(job, fullLen, runs, cfg)
  {
    forall u | 0 <= u < |cfg.js| ensures SomeCame(job, fullLen, runs, cfg.js[u], cfg.ps[u]) {
      assert InUse(job, cfg.js[u], cfg.ps[u]);
      CellSomeCame(job, fullLen, runs, cfg.js[u], cfg.ps[u]);
    }
  }

  lemma BackedCells(job: Job, cfg: Config, full: Key, c: nat, i: nat, item: Item)
    requires ValidJob(job) && Backs(job, cfg, full, c, i, item)
    ensures |cfg.js| == |cfg.ps| == job.k && AllInUse(job, cfg)
  {
    forall u | 0 <= u < |cfg.js| ensures InUse(job, cfg.js[u], cfg.ps[u]) {
      assert HoldsFragment(job, full, cfg.js[u], cfg.ps[u]);
    }
  }

  lemma CameIsReported(job: Job, fullLen: nat, runs: seq<seq<Arrival>>, cfg: Config, full: Key, c: nat, i: nat,
                       item: Item, flow: Key)
    requires ValidJob(job) && FilledBy(job, fullLen, runs) && Backs(job, cfg, full, c, i, item)
             && AllCame(job, fullLen, runs, cfg, flow)
    ensures item.key == flow
  {
    BackedCells(job, cfg, full, c, i, item);
    AllCameSegments(job, fullLen, runs, cfg, flow);
    BackedFlow(job, cfg, full, c, i, item, flow, fullLen);
  }

  /** Whatever is reported goes back to packets: each of the k fragments behind it is that of a flow that arrived at the
      fragment's switch and whose branch passes through its cell; and if one flow accounts for all k, it is what is
      reported. */
  lemma ReportTraced(job: Job, c: nat, i: nat, fullLen: nat, runs: seq<seq<Arrival>>) returns (cfg: Config, full: Key)
    requires ValidJob(job) && FilledBy(job, fullLen, runs) && At(Decoded(job), c, i).count != 0
    ensures Backs(job, cfg, full, c, i, At(Decoded(job), c, i))
    ensures c < |runs| && i < 15 * job.m && Shaped(job, Decoded(job))
    ensures var table := TableOf(job.m, job.home, StoredBy(job, fullLen, c), runs[c]);
            Decoded(job)[c][i].count == table[i].count && Decoded(job)[c][i].time == table[i].time
    ensures EachCame(job, fullLen, runs, cfg)
    ensures forall flow | AllCame(job, fullLen, runs, cfg, flow) :: At(Decoded(job), c, i).key == flow
  {
    cfg, full := DecodeSound(job, c, i);
    CacheIs(job, fullLen, runs, c);
    var item := At(Decoded(job), c, i);
    BackedCells(job, cfg, full, c, i, item);
    CellsCame(job, fullLen, runs, cfg);
    forall flow | AllCame(job, fullLen, runs, cfg, flow) ensures item.key == flow {
      CameIsReported(job, fullLen, runs, cfg, full, c, i, item, flow);
    }
  }

  /** The last packet of switch c was of this flow, and no counter was about to wrap when it came. */
  ghost predicate LastAt(job: Job, fullLen: nat, runs: seq<seq<Arrival>>, c: nat, flow: Key) {
    && c < |runs| && runs[c] != [] && runs[c][|runs[c]| - 1].flow == flow
    && NoneFull(TableOf(job.m, job.home, StoredBy(job, fullLen, c), runs[c][..|runs[c]| - 1]))
  }

  ghost predicate AllLast(job: Job, fullLen: nat, runs: seq<seq<Arrival>>, js: seq<nat>, flow: Key) {
    forall u | 0 <= u < |js| :: LastAt(job, fullLen, runs, js[u], flow)
  }

  /** Cell i of cache c, on the flow's branch, holds its fragment. */
  ghost predicate Placed(job: Job, flow: Key, fullLen: nat, c: nat, i: nat) {
    HoldsSegment(job, flow, fullLen, c, i) && Passes(job.m, job.home(flow), i)
  }

  ghost predicate AllPlaced(job: Job, flow: Key, fullLen: nat, js: seq<nat>, ps: seq<nat>) {
    |js| == |ps| && forall u | 0 <= u < |js| :: Placed(job, flow, fullLen, js[u], ps[u])
  }

  lemma LastPlace(job: Job, flow: Key, fullLen: nat, runs: seq<seq<Arrival>>, c: nat) returns (i: nat)
    requires ValidJob(job) && SameLengths(job, flow, fullLen) && FilledBy(job, fullLen, runs)
             && LastAt(job, fullLen, runs, c, flow)
    ensures Placed(job, flow, fullLen, c, i)
  {
    CacheIs(job, fullLen, runs, c);
    StoredIs(job, fullLen, c, flow);
    i := LastCell(job.m, job.home, StoredBy(job, fullLen, c), runs[c], flow);
  }

  lemma PlacedMore(job: Job, flow: Key, fullLen: nat, js: seq<nat>, ps: seq<nat>, c: nat, i: nat)
    requires AllPlaced(job, flow, fullLen, js, ps) && Placed(job, flow, fullLen, c, i)
    ensures AllPlaced(job, flow, fullLen, js + [c], ps + [i])
  {
  }

  lemma LastSplits(js: seq<nat>)
    requires js != []
    ensures js == js[..|js| - 1] + [js[|js| - 1]]
  {
  }

  lemma {:induction false} LastPlaces(job: Job, flow: Key, fullLen: nat, runs: seq<seq<Arrival>>, js: seq<nat>)
    returns (ps: seq<nat>)
    requires ValidJob(job) && SameLengths(job, flow, fullLen) && FilledBy(job, fullLen, runs)
             && AllLast(job, fullLen, runs, js, flow)
    ensures AllPlaced(job, flow, fullLen, js, ps)
    decreases |js|
  {
    if js == [] {
      ps := [];
    } else {
      var n := |js| - 1;
      var front := LastPlaces(job, flow, fullLen, runs, js[..n]);
      var i := LastPlace(job, flow, fullLen, runs, js[n]);
      ps := front + [i];
      PlacedMore(job, flow, fullLen, js[..n], front, js[n], i);
      LastSplits(js);
    }
  }

  lemma PlacedHolds(job: Job, flow: Key, fullLen: nat, js: seq<nat>, ps: seq<nat>)
    requires AllPlaced(job, flow, fullLen, js, ps)
    ensures HoldsSegments(job, Config(js, ps), flow, fullLen) && OnOneBranch(job.m, job.home(flow), ps)
  {
    forall u | 0 <= u < |js| ensures HoldsSegment(job, flow, fullLen, js[u], ps[u])
      && Passes(job.m, job.home(flow), ps[u]) {
      assert Placed(job, flow, fullLen, js[u], ps[u]);
    }
  }

  /** Cell i of result table c has the counter and time that the switch's own table has there. */
  ghost predicate KeepsCount(job: Job, fullLen: nat, runs: seq<seq<Arrival>>, c: nat, i: nat)
    requires job.k > 1
  {
    && c < |runs| == |job.caches| && i < 15 * job.m && Shaped(job, Decoded(job))
    && var table := TableOf(job.m, job.home, StoredBy(job, fullLen, c), runs[c]);
    Decoded(job)[c][i].count == table[i].count != 0 && Decoded(job)[c][i].time == table[i].time
  }

  lemma FoundKeepsCount(job: Job, fullLen: nat, runs: seq<seq<Arrival>>, x: nat, c: nat, i: nat, flow: Key)
    requires ValidJob(job) && FilledBy(job, fullLen, runs) && Found(job, x, c, i, flow)
    requires HoldsSegment(job, flow, fullLen, c, i)
    ensures KeepsCount(job, fullLen, runs, c, i)
  {
    CacheIs(job, fullLen, runs, c);
  }

  /** End to end: a flow whose packet was the last at k switches is found in all k of them, whatever came before, with
      the counters and times of the switches' tables. */
  lemma LastFlowFound(job: Job, flow: Key, fullLen: nat, runs: seq<seq<Arrival>>, js: seq<nat>)
    returns (ps: seq<nat>, x: nat)
    requires ValidJob(job) && SameLengths(job, flow, fullLen) && FilledBy(job, fullLen, runs)
    requires |js| == job.k && Ascending(js) && Below(js, |job.caches|)
    requires AllLast(job, fullLen, runs, js, flow)
    ensures |ps| == job.k && forall u | 0 <= u < job.k :: Found(job, x, js[u], ps[u], flow)
    ensures forall u | 0 <= u < job.k :: KeepsCount(job, fullLen, runs, js[u], ps[u])
  {
    ps := LastPlaces(job, flow, fullLen, runs, js);
    PlacedHolds(job, flow, fullLen, js, ps);
    x := FlowFound(job, Config(js, ps), flow, fullLen);
    forall u | 0 <= u < job.k ensures KeepsCount(job, fullLen, runs, js[u], ps[u]) {
      assert Placed(job, flow, fullLen, js[u], ps[u]) && Found(job, x, js[u], ps[u], flow);
      FoundKeepsCount(job, fullLen, runs, x, js[u], ps[u], flow);
    }
  }
}
