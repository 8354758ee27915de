/** What a whole search guarantees: nothing it reports is unfounded, and no flow whose fragments are there is missed. */
module SearchRuns {
  import opened Bytes
  import opened Items
  import opened AHeapSpec
  import opened Generator
  import opened Codec
  import opened Combos
  import opened DecoderSpec
  import opened SearchSpec

  // ----- writes

  /** The cell i of cache c is among the cells ps of the caches js. */
  predicate Hits(js: seq<nat>, ps: seq<nat>, c: nat, i: nat)
    requires |js| == |ps|
  {
    exists u :: 0 <= u < |js| && js[u] == c && ps[u] == i
  }

  lemma HitsNext(js: seq<nat>, ps: seq<nat>, c: nat, i: nat)
    requires |js| == |ps| && js != []
    ensures var g := |js| - 1;
            Hits(js, ps, c, i) <==> Hits(js[..g], ps[..g], c, i) || (js[g] == c && ps[g] == i)
  {
    var g := |js| - 1;
    if Hits(js[..g], ps[..g], c, i) {
      var u :| 0 <= u < g && js[..g][u] == c && ps[..g][u] == i;
      assert js[u] == c && ps[u] == i;
    }
    if Hits(js, ps, c, i) {
      var u :| 0 <= u < |js| && js[u] == c && ps[u] == i;
      assert u < g ==> js[..g][u] == c && ps[..g][u] == i;
    }
  }

  lemma HitsIns(js: seq<nat>, ps: seq<nat>, r: nat, x: nat, y: nat, c: nat, i: nat)
    requires |js| == |ps| && r <= |js|
    ensures Hits(Ins(js, r, x), Ins(ps, r, y), c, i) <==> Hits(js, ps, c, i) || (c == x && i == y)
  {
    var js', ps' := Ins(js, r, x), Ins(ps, r, y);
    if Hits(js, ps, c, i) {
      var u :| 0 <= u < |js| && js[u] == c && ps[u] == i;
      var v := if u < r then u else u + 1;
      assert js'[v] == c && ps'[v] == i;
    }
    if c == x && i == y { assert js'[r] == c && ps'[r] == i; }
    if Hits(js', ps', c, i) {
      var v :| 0 <= v < |js'| && js'[v] == c && ps'[v] == i;
      if v != r {
        var u := if v < r then v else v - 1;
        assert js[u] == c && ps[u] == i;
      }
    }
  }

  lemma BlankShaped(job: Job)
    ensures Shaped(job, Blank(job.m, |job.caches|))
    ensures forall c: nat, i: nat :: At(Blank(job.m, |job.caches|), c, i) == EMPTY
  {
  }

  lemma PutShaped(job: Job, maps: Tables, c: nat, i: nat, item: Item)
    requires Shaped(job, maps)
    ensures Shaped(job, Put(maps, c, i, item))
  {
  }

  lemma PutAt(maps: Tables, c: nat, i: nat, item: Item, c': nat, i': nat)
    requires c < |maps| && i < |maps[c]|
    ensures At(Put(maps, c, i, item), c', i') == if c' == c && i' == i then item else At(maps, c', i')
  {
  }

  /** Recording a key changes exactly the listed cells: counter and time are those of the source cell. */
  lemma {:induction false} PutAllAt(job: Job, key: Key, js: seq<nat>, ps: seq<nat>, maps: Tables, c: nat, i: nat)
    requires Shaped(job, maps) && |js| == |ps| && Below(js, |job.caches|) && Below(ps, 15 * job.m)
    ensures Shaped(job, PutAll(job, key, js, ps, maps))
    ensures At(PutAll(job, key, js, ps, maps), c, i) == if Hits(js, ps, c, i) then Named(job, c, i, key)
            else At(maps, c, i)
  {
    if js != [] {
      var g := |js| - 1;
      HitsNext(js, ps, c, i);
      PutAllAt(job, key, js[..g], ps[..g], maps, c, i);
      var m1 := PutAll(job, key, js[..g], ps[..g], maps);
      PutShaped(job, m1, js[g], ps[g], Named(job, js[g], ps[g], key));
      PutAt(m1, js[g], ps[g], Named(job, js[g], ps[g], key), c, i);
    }
  }

  /** The cells of a point, by ascending cache. */
  ghost predicate Uses(job: Job, pt: Point, c: nat, i: nat)
    requires IsPoint(job.m, |job.caches|, job.k, pt)
  {
    Hits(CellsOf(job, pt).js, CellsOf(job, pt).ps, c, i)
  }

  lemma OthersInTable(job: Job, pt: Point)
    requires IsPoint(job.m, |job.caches|, job.k, pt)
    ensures pt.i < 15 * job.m && forall d | 0 <= d < |pt.digs| :: LevelOf(job.m, pt.i) + pt.digs[d] < 4
    ensures Below(Others(job.m, pt.i, pt.digs), 15 * job.m)
  {
    PointLevel(job.m, |job.caches|, job.k, pt);
    forall d | 0 <= d < |pt.digs|
      ensures Others(job.m, pt.i, pt.digs)[d] < 15 * job.m
    {
      PlaceLevel(job.m, pt.i, pt.digs[d]);
    }
  }

  lemma RecordAt(job: Job, pt: Point, key: Key, maps: Tables, c: nat, i: nat)
    requires IsPoint(job.m, |job.caches|, job.k, pt) && Shaped(job, maps)
    ensures Shaped(job, Record(job, pt, key, maps))
    ensures At(Record(job, pt, key, maps), c, i) == if Uses(job, pt, c, i) then Named(job, c, i, key)
            else At(maps, c, i)
    ensures Uses(job, pt, c, i) && c < |job.caches| && i < |job.caches[c].cells| ==>
              var source := job.caches[c].cells[i];
              At(Record(job, pt, key, maps), c, i) == Item(key, source.count, source.time)
  {
    OthersInTable(job, pt);
    var os := Others(job.m, pt.i, pt.digs);
    var m1 := Put(maps, pt.ic, pt.i, Named(job, pt.ic, pt.i, key));
    PutShaped(job, maps, pt.ic, pt.i, Named(job, pt.ic, pt.i, key));
    PutAt(maps, pt.ic, pt.i, Named(job, pt.ic, pt.i, key), c, i);
    PutAllAt(job, key, pt.sub, os, m1, c, i);
    HitsIns(pt.sub, os, Rank(pt), pt.ic, pt.i, c, i);
  }

  /** The point was confirmed, and it wrote this item into this cell. */
  ghost predicate Explains(job: Job, pt: Point, c: nat, i: nat, item: Item) {
    Confirmed(job, pt) && Uses(job, pt, c, i) && item == Named(job, c, i, KeyOf(job, pt))
  }

  lemma StepAt(job: Job, pt: Point, maps: Tables, c: nat, i: nat)
    requires Shaped(job, maps)
    ensures Shaped(job, Step(job, maps, pt))
    ensures var item := At(Step(job, maps, pt), c, i); Explains(job, pt, c, i, item) || item == At(maps, c, i)
    ensures Confirmed(job, pt) && Uses(job, pt, c, i) ==> Explains(job, pt, c, i, At(Step(job, maps, pt), c, i))
  {
    if Confirmed(job, pt) { RecordAt(job, pt, KeyOf(job, pt), maps, c, i); }
  }

  /** The tables after trying `pts`, from blank ones. */
  ghost function After(job: Job, pts: seq<Point>): Tables {
    Run(job, pts, Blank(job.m, |job.caches|))
  }

  lemma AfterNext(job: Job, pts: seq<Point>)
    requires pts != []
    ensures After(job, pts) == Step(job, After(job, pts[..|pts| - 1]), pts[|pts| - 1])
  {
  }

  lemma {:induction false} AfterShaped(job: Job, pts: seq<Point>)
    ensures Shaped(job, After(job, pts))
  {
    if pts == [] {
      BlankShaped(job);
    } else {
      AfterShaped(job, pts[..|pts| - 1]);
      AfterNext(job, pts);
      StepAt(job, pts[|pts| - 1], After(job, pts[..|pts| - 1]), 0, 0);
    }
  }

  /** Some point from number x on explains the item. */
  ghost predicate ExplainedFrom(job: Job, pts: seq<Point>, x: nat, c: nat, i: nat, item: Item) {
    exists y {:trigger pts[y]} :: x <= y < |pts| && Explains(job, pts[y], c, i, item)
  }

  lemma ExplainedMore(job: Job, pts: seq<Point>, x: nat, c: nat, i: nat, item: Item)
    requires pts != [] && ExplainedFrom(job, pts[..|pts| - 1], x, c, i, item)
    ensures ExplainedFrom(job, pts, x, c, i, item)
  {
    var front := pts[..|pts| - 1];
    var y: nat :| x <= y < |front| && Explains(job, front[y], c, i, item);
    assert pts[y] == front[y];
  }

  /** Every nonempty result cell was written for a confirmed point. */
  lemma {:induction false} ResultExplained(job: Job, pts: seq<Point>, c: nat, i: nat)
    ensures At(After(job, pts), c, i).count != 0 ==> ExplainedFrom(job, pts, 0, c, i, At(After(job, pts), c, i))
  {
    if pts == [] {
      BlankShaped(job);
    } else {
      var n := |pts| - 1;
      var front, item := pts[..n], At(After(job, pts), c, i);
      ResultExplained(job, front, c, i);
      AfterShaped(job, front);
      AfterNext(job, pts);
      StepAt(job, pts[n], After(job, front), c, i);
      if item.count != 0 && !Explains(job, pts[n], c, i, item) { ExplainedMore(job, pts, 0, c, i, item); }
    }
  }

  /** A cell that was written for a confirmed point stays written: later ones may only replace its key. */
  lemma {:induction false} ResultKeeps(job: Job, pts: seq<Point>, x: nat, c: nat, i: nat)
    requires x < |pts| && Confirmed(job, pts[x]) && Uses(job, pts[x], c, i)
    ensures ExplainedFrom(job, pts, x, c, i, At(After(job, pts), c, i))
  {
    var n := |pts| - 1;
    var front, item := pts[..n], At(After(job, pts), c, i);
    AfterShaped(job, front);
    AfterNext(job, pts);
    StepAt(job, pts[n], After(job, front), c, i);
    if !Explains(job, pts[n], c, i, item) {
      assert front[x] == pts[x];
      ResultKeeps(job, front, x, c, i);
      ExplainedMore(job, pts, x, c, i, item);
    }
  }

  // ----- soundness

  lemma PassesAbove(m: nat, h: nat, i: nat, p: nat)
    requires h < 8 * m && i < 15 * m && Passes(m, h, i) && Above(m, i, p)
    ensures Passes(m, h, p)
  {
    var l: nat :| l < 4 && i == Pos(m, h, l);
    PosInLevel(m, h, l);
    PlaceLevel(m, i, 0);
    assert p == Pos(m, h, LevelOf(m, p));
  }

  /** The key's own branch passes through all k cells, though only the first was checked. */
  lemma ConfirmedOnBranch(job: Job, pt: Point, u: nat)
    requires Confirmed(job, pt) && u < job.k
    ensures Passes(job.m, job.home(KeyOf(job, pt)), CellsOf(job, pt).ps[u])
  {
    PointLevel(job.m, |job.caches|, job.k, pt);
    ConfigLevels(job.m, |job.caches|, job.k, pt, u);
    PassesAbove(job.m, job.home(KeyOf(job, pt)), pt.i, CellsOf(job, pt).ps[u]);
  }

  /** The cells ps all lie on branch h. */
  ghost predicate OnOneBranch(m: nat, h: nat, ps: seq<nat>) {
    forall u | 0 <= u < |ps| :: Passes(m, h, ps[u])
  }

  /** Cell i of cache c is in use, and holds the fragment of `full` that belongs to the cache's id. */
  ghost predicate HoldsFragment(job: Job, full: Key, c: nat, i: nat)
    requires |full| == job.k * job.len && job.k <= 256
  {
    && c < |job.caches| && i < |job.caches[c].cells| && job.caches[c].id < 256
    && job.caches[c].cells[i].count != 0
    && job.caches[c].cells[i].key == FragmentOf(job.L.gf, full, job.k, job.len, job.caches[c].id)
  }

  /** So does every cell of `cfg`. */
  ghost predicate HoldsFragments(job: Job, cfg: Config, full: Key)
    requires |full| == job.k * job.len && job.k <= 256
  {
    |cfg.js| == |cfg.ps| && forall u | 0 <= u < |cfg.js| :: HoldsFragment(job, full, cfg.js[u], cfg.ps[u])
  }

  /** In terms of what the search collects. */
  lemma HeldFragments(job: Job, cfg: Config, full: Key)
    requires |cfg.js| == |cfg.ps| && |full| == job.k * job.len && job.k <= 256
    ensures HoldsFragments(job, cfg, full) <==>
              AllFull(job, cfg.js, cfg.ps) && Below(IdsAt(job.caches, cfg.js), 256)
              && FragmentsOf(job.L.gf, full, job.k, job.len, IdsAt(job.caches, cfg.js), Fragments(job, cfg.js, cfg.ps))
  {
    var ids, srcs := IdsAt(job.caches, cfg.js), Fragments(job, cfg.js, cfg.ps);
    if HoldsFragments(job, cfg, full) {
      forall u | 0 <= u < |cfg.js|
        ensures CellAt(job, cfg.js[u], cfg.ps[u]).count != 0 && ids[u] < 256
                && srcs[u] == FragmentOf(job.L.gf, full, job.k, job.len, ids[u])
      {
        assert HoldsFragment(job, full, cfg.js[u], cfg.ps[u]);
      }
    }
    if AllFull(job, cfg.js, cfg.ps) && Below(ids, 256) && FragmentsOf(job.L.gf, full, job.k, job.len, ids, srcs) {
      forall u | 0 <= u < |cfg.js| ensures HoldsFragment(job, full, cfg.js[u], cfg.ps[u]) {
        assert CellAt(job, cfg.js[u], cfg.ps[u]).count != 0 && ids[u] < 256;
        assert srcs[u] == FragmentOf(job.L.gf, full, job.k, job.len, ids[u]);
      }
    }
  }

  /** No other key has these fragments. */
  ghost predicate OnlyFull(job: Job, cfg: Config, full: Key)
    requires job.k <= 256
  {
    forall other: Key | |other| == job.k * job.len && HoldsFragments(job, cfg, other) :: other == full
  }

  /** `cfg` backs the report of `item` in cell i of cache c: k nonempty cells of k caches, this one among them, all on
      the branch of the reported key, which hold exactly the fragments of `full`, and of no other key; the reported key
      is the front part of `full`. */
  ghost predicate Backs(job: Job, cfg: Config, full: Key, c: nat, i: nat, item: Item)
    requires job.k <= 256
  {
    && ValidConfig(job.m, |job.caches|, job.k, cfg) && Hits(cfg.js, cfg.ps, c, i)
    && |full| == job.k * job.len >= job.keyLen && item.key == full[..job.keyLen] && HoldsFragments(job, cfg, full)
    && OnlyFull(job, cfg, full)
    && OnOneBranch(job.m, job.home(item.key), cfg.ps)
  }

  lemma FullHeld(job: Job, pt: Point)
    requires ValidJob(job) && IsPoint(job.m, |job.caches|, job.k, pt) && PointFull(job, pt)
    ensures HoldsFragments(job, CellsOf(job, pt), FullOf(job, pt)) && OnlyFull(job, CellsOf(job, pt), FullOf(job, pt))
  {
    var cfg, full := CellsOf(job, pt), FullOf(job, pt);
    FullOfDecodes(job, pt);
    FullOfReencodes(job, pt);
    HeldFragments(job, cfg, full);
    forall other: Key | |other| == job.k * job.len && HoldsFragments(job, cfg, other) ensures other == full {
      HeldFragments(job, cfg, other);
    }
  }

  lemma ExplainsBacks(job: Job, pt: Point, c: nat, i: nat, item: Item)
    requires Explains(job, pt, c, i, item)
    ensures Backs(job, CellsOf(job, pt), FullOf(job, pt), c, i, item)
  {
    ConfigIsValid(job.m, |job.caches|, job.k, pt);
    FullHeld(job, pt);
    forall u | 0 <= u < job.k
      ensures Passes(job.m, job.home(item.key), CellsOf(job, pt).ps[u])
    {
      ConfirmedOnBranch(job, pt, u);
    }
  }

  lemma HitsOnBranch(m: nat, h: nat, js: seq<nat>, ps: seq<nat>, c: nat, i: nat)
    requires |js| == |ps| && Hits(js, ps, c, i) && OnOneBranch(m, h, ps)
    ensures Passes(m, h, i)
  {
    var u :| 0 <= u < |js| && js[u] == c && ps[u] == i;
  }

  /** Decode soundness: a nonempty cell of the decoded tables has the counter and time of the same source cell, and its
      key's own branch passes through it and through k - 1 nonempty cells of other caches; these k cells hold exactly
      the fragments of the key, padded. */
  lemma DecodeSound(job: Job, c: nat, i: nat) returns (cfg: Config, full: Key)
    requires ValidJob(job) && At(Decoded(job), c, i).count != 0
    ensures c < |job.caches| && i < |job.caches[c].cells| && Shaped(job, Decoded(job))
    ensures var item, source := Decoded(job)[c][i], job.caches[c].cells[i];
            item == At(Decoded(job), c, i) && item.count == source.count && item.time == source.time
            && |item.key| == job.keyLen
            && Backs(job, cfg, full, c, i, item) && Passes(job.m, job.home(item.key), i)
  {
    var pts, item := Points(job.m, |job.caches|, job.k), At(Decoded(job), c, i);
    ResultExplained(job, pts, c, i);
    AfterShaped(job, pts);
    var y: nat :| 0 <= y < |pts| && Explains(job, pts[y], c, i, item);
    ExplainsBacks(job, pts[y], c, i, item);
    cfg, full := CellsOf(job, pts[y]), FullOf(job, pts[y]);
    HitsOnBranch(job.m, job.home(item.key), cfg.js, cfg.ps, c, i);
  }

  // ----- completeness

  lemma OnBranchAbove(m: nat, h: nat, i: nat, p: nat)
    requires h < 8 * m && Passes(m, h, i) && Passes(m, h, p) && LevelOf(m, i) <= LevelOf(m, p)
    ensures i < 15 * m && p < 15 * m && Above(m, i, p)
  {
    var a: nat :| a < 4 && i == Pos(m, h, a);
    var b: nat :| b < 4 && p == Pos(m, h, b);
    PosInLevel(m, h, a);
    PosInLevel(m, h, b);
  }

  lemma Lowest(m: nat, ps: seq<nat>) returns (t: nat)
    requires ps != []
    ensures t < |ps| && forall u | 0 <= u < |ps| :: LevelOf(m, ps[t]) <= LevelOf(m, ps[u])
  {
    t := 0;
    for v := 0 to |ps|
      invariant t < |ps| && forall u | 0 <= u < v :: LevelOf(m, ps[t]) <= LevelOf(m, ps[u])
    {
      if LevelOf(m, ps[v]) < LevelOf(m, ps[t]) { t := v; }
    }
  }

  /** Cells on one branch are a chain. */
  lemma BranchIsChain(m: nat, n: nat, k: nat, h: nat, cfg: Config)
    requires k > 1 && h < 8 * m && |cfg.js| == k == |cfg.ps| && Ascending(cfg.js) && Below(cfg.js, n)
             && OnOneBranch(m, h, cfg.ps)
    ensures ValidConfig(m, n, k, cfg)
  {
    var t := Lowest(m, cfg.ps);
    forall u | 0 <= u < k
      ensures cfg.ps[u] < 15 * m && Above(m, cfg.ps[t], cfg.ps[u])
    {
      OnBranchAbove(m, h, cfg.ps[t], cfg.ps[u]);
    }
    assert ChainFrom(m, cfg.ps, t);
  }

  lemma PointNumber(job: Job, cfg: Config) returns (x: nat)
    requires job.k > 1 && ValidConfig(job.m, |job.caches|, job.k, cfg)
    ensures var pts := Points(job.m, |job.caches|, job.k);
            x < |pts| && IsPoint(job.m, |job.caches|, job.k, pts[x]) && CellsOf(job, pts[x]) == cfg
  {
    var pts := Points(job.m, |job.caches|, job.k);
    var pt := PointOfConfig(job.m, |job.caches|, job.k, cfg);
    PointsOnce(job.m, |job.caches|, job.k);
    assert pt in pts;
    x :| 0 <= x < |pts| && pts[x] == pt;
  }

  /** A point whose cells hold the fragments of a flow's padded key decodes to that key, and is confirmed. */
  lemma FragmentsConfirm(job: Job, pt: Point, flow: Key, full: Key)
    requires ValidJob(job) && IsPoint(job.m, |job.caches|, job.k, pt) && |full| == job.k * job.len
             && flow == full[..job.keyLen]
    requires HoldsFragments(job, CellsOf(job, pt), full) && OnOneBranch(job.m, job.home(flow), CellsOf(job, pt).ps)
    ensures Confirmed(job, pt) && FullOf(job, pt) == full && KeyOf(job, pt) == flow
  {
    var cfg, r := CellsOf(job, pt), Rank(pt);
    HeldFragments(job, cfg, full);
    FullOfDecodes(job, pt);
    assert FullOf(job, pt) == full;
    ConfigLevels(job.m, |job.caches|, job.k, pt, r);
    assert Passes(job.m, job.home(flow), cfg.ps[r]);
  }

  /** Right after a confirmed point, its k result cells hold its key with the counters and times of their source
      cells. */
  lemma ConfirmedWrites(job: Job, pts: seq<Point>, x: nat, c: nat, i: nat)
    requires x < |pts| && Confirmed(job, pts[x]) && Uses(job, pts[x], c, i)
    ensures At(After(job, pts[..x + 1]), c, i) == Named(job, c, i, KeyOf(job, pts[x]))
  {
    var done := pts[..x + 1];
    assert done[..x] == pts[..x] && done[x] == pts[x];
    AfterShaped(job, pts[..x]);
    AfterNext(job, done);
    StepAt(job, pts[x], After(job, pts[..x]), c, i);
  }

  /** No other key is ever written into cell i of cache c. */
  ghost predicate OnlyKey(job: Job, c: nat, i: nat, flow: Key) {
    forall pt {:trigger Confirmed(job, pt)} | Confirmed(job, pt) && Uses(job, pt, c, i) :: KeyOf(job, pt) == flow
  }

  /** What the search leaves of a flow in a cell: its key right after point x, with the counter and time of the source
      cell; this counter and time in any case; and the key in the end too, unless a later confirmed point put another
      key there. */
  ghost predicate Found(job: Job, x: nat, c: nat, i: nat, flow: Key)
    requires job.k > 1
  {
    && c < |job.caches| && i < |job.caches[c].cells| && Shaped(job, Decoded(job)) && i < |Decoded(job)[c]|
    && var pts, source := Points(job.m, |job.caches|, job.k), job.caches[c].cells[i];
    && x < |pts| && At(After(job, pts[..x + 1]), c, i) == Item(flow, source.count, source.time)
    && Decoded(job)[c][i].count == source.count && Decoded(job)[c][i].time == source.time
    && (OnlyKey(job, c, i, flow) ==> Decoded(job)[c][i] == Item(flow, source.count, source.time))
  }

  lemma UsesInTable(job: Job, pt: Point, c: nat, i: nat)
    requires Confirmed(job, pt) && Uses(job, pt, c, i)
    ensures c < |job.caches| && |job.caches[c].cells| == 15 * job.m && i < 15 * job.m
  {
    ConfigIsValid(job.m, |job.caches|, job.k, pt);
    assert c < |job.caches|;
    assert FitCache(job.m, job.len, job.caches[c]);
  }

  lemma DecodedAt(job: Job, c: nat, i: nat)
    requires job.k > 1 && c < |job.caches| && i < 15 * job.m
    ensures Shaped(job, Decoded(job)) && i < |Decoded(job)[c]| && Decoded(job)[c][i] == At(Decoded(job), c, i)
  {
    AfterShaped(job, Points(job.m, |job.caches|, job.k));
  }

  lemma OnlyKeyHere(job: Job, pt: Point, c: nat, i: nat, flow: Key)
    requires OnlyKey(job, c, i, flow) && Confirmed(job, pt) && Uses(job, pt, c, i)
    ensures KeyOf(job, pt) == flow
  {
  }

  /** In the end the cell has its source's counter and time, and the key of a confirmed point. */
  lemma KeptNamed(job: Job, pts: seq<Point>, x: nat, c: nat, i: nat, flow: Key) returns (key: Key)
    requires x < |pts| && Confirmed(job, pts[x]) && Uses(job, pts[x], c, i)
    ensures At(After(job, pts), c, i) == Named(job, c, i, key)
    ensures OnlyKey(job, c, i, flow) ==> key == flow
  {
    ResultKeeps(job, pts, x, c, i);
    var y: nat :| x <= y < |pts| && Explains(job, pts[y], c, i, At(After(job, pts), c, i));
    key := KeyOf(job, pts[y]);
    if OnlyKey(job, c, i, flow) { OnlyKeyHere(job, pts[y], c, i, flow); }
  }

  lemma ConfirmedFound(job: Job, pts: seq<Point>, x: nat, c: nat, i: nat)
    requires job.k > 1 && pts == Points(job.m, |job.caches|, job.k) && x < |pts| && Confirmed(job, pts[x])
             && Uses(job, pts[x], c, i)
    ensures Found(job, x, c, i, KeyOf(job, pts[x]))
  {
    UsesInTable(job, pts[x], c, i);
    ConfirmedWrites(job, pts, x, c, i);
    DecodedAt(job, c, i);
    var key := KeptNamed(job, pts, x, c, i, KeyOf(job, pts[x]));
  }

  /** Decode completeness: if k caches hold fragments of a flow's padded key in cells on the flow's branch, then the
      search tries these cells, recovers the flow's key, confirms it, and writes it into all k result cells. */
  lemma DecodeComplete(job: Job, cfg: Config, flow: Key, full: Key) returns (x: nat)
    requires ValidJob(job)
    requires |cfg.js| == |cfg.ps| == job.k && Ascending(cfg.js) && Below(cfg.js, |job.caches|)
    requires |full| == job.k * job.len && flow == full[..job.keyLen]
    requires HoldsFragments(job, cfg, full) && OnOneBranch(job.m, job.home(flow), cfg.ps)
    ensures var pts := Points(job.m, |job.caches|, job.k);
            x < |pts| && Confirmed(job, pts[x]) && CellsOf(job, pts[x]) == cfg && FullOf(job, pts[x]) == full
    ensures forall u | 0 <= u < job.k :: Found(job, x, cfg.js[u], cfg.ps[u], flow)
  {
    BranchIsChain(job.m, |job.caches|, job.k, job.home(flow), cfg);
    x := PointNumber(job, cfg);
    var pts := Points(job.m, |job.caches|, job.k);
    FragmentsConfirm(job, pts[x], flow, full);
    forall u | 0 <= u < job.k ensures Found(job, x, cfg.js[u], cfg.ps[u], flow) {
      assert Uses(job, pts[x], cfg.js[u], cfg.ps[u]);
      ConfirmedFound(job, pts, x, cfg.js[u], cfg.ps[u]);
    }
  }
}
