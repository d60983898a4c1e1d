/** Resolving character affiliations in batches: a rejected batch is bisected down to the ids the
    upstream rejects, anything else that fails is left for the next run. */
module Affiliation {
  import opened Wrappers

  datatype Row = Row(characterId: int, corporationId: int, allianceId: Option<int>)

  /** What the upstream answers: rows, the deterministic 400, or any other failure. */
  datatype Answer = Rows(rows: seq<Row>) | BadRequest | Failure

  /** The upstream: its answer may depend on how many posts came before. */
  type Upstream = (nat, seq<int>) -> Answer

  /** How a run of posts unfolded: one answer, or one part after another, the first of which may
      have been preceded by a rejected post. */
  datatype Run =
    | Empty
    | Answered(ids: seq<int>, rows: seq<Row>)
    | Rejected(id: int)
    | Failed(ids: seq<int>)
    | Both(rejections: nat, left: Run, right: Run)

  function FirstRow(rows: seq<Row>, id: int): Option<Row> {
    if rows == [] then None
    else if rows[0].characterId == id then Some(rows[0])
    else FirstRow(rows[1..], id)
  }

  /** The requested ids that got a row, and those that did not. */
  function Having(ids: seq<int>, rows: seq<Row>, wanted: bool): seq<int> {
    if ids == [] then []
    else Having(ids[..|ids| - 1], rows, wanted)
         + if FirstRow(rows, ids[|ids| - 1]).Some? == wanted then [ids[|ids| - 1]] else []
  }

  function FirstRows(ids: seq<int>, rows: seq<Row>): map<int, Row> {
    map id | id in ids && FirstRow(rows, id).Some? :: FirstRow(rows, id).value
  }

  function Posts(r: Run): nat {
    match r
    case Empty => 0
    case Both(rejections, left, right) => rejections + Posts(left) + Posts(right)
    case _ => 1
  }

  function Resolved(r: Run): map<int, Row> {
    match r
    case Answered(ids, rows) => FirstRows(ids, rows)
    case Both(_, left, right) => Resolved(left) + Resolved(right)
    case _ => map[]
  }

  function Invalid(r: Run): seq<int> {
    match r
    case Rejected(id) => [id]
    case Both(_, left, right) => Invalid(left) + Invalid(right)
    case _ => []
  }

  function Unresolved(r: Run): seq<int> {
    match r
    case Answered(ids, rows) => Having(ids, rows, false)
    case Failed(ids) => ids
    case Both(_, left, right) => Unresolved(left) + Unresolved(right)
    case _ => []
  }

  /** One chunk, when `n` posts came before it. */
  function RunChunk(post: Upstream, n: nat, ids: seq<int>): Run
    decreases |ids|
  {
    if ids == [] then Empty
    else
      match post(n, ids)
      case Rows(rows) => Answered(ids, rows)
      case Failure => Failed(ids)
      case BadRequest =>
        if |ids| == 1 then Rejected(ids[0])
        else
          var halves := Halves(post, n + 1, ids);
          Both(1, halves.left, halves.right)
  }

  /** The two halves of a chunk, the first one no shorter. */
  function Halves(post: Upstream, n: nat, ids: seq<int>): (r: Run)
    requires |ids| > 1
    ensures r.Both? && r.rejections == 0
    decreases |ids|, 0
  {
    var mid := (|ids| + 1) / 2;
    var left := RunChunk(post, n, ids[..mid]);
    Both(0, left, RunChunk(post, n + Posts(left), ids[mid..]))
  }

  lemma RejectedRun(post: Upstream, n: nat, ids: seq<int>)
    requires |ids| > 1 && post(n, ids).BadRequest?
    ensures var mid := (|ids| + 1) / 2;
      var left := RunChunk(post, n + 1, ids[..mid]);
      RunChunk(post, n, ids) == Both(1, left, RunChunk(post, n + 1 + Posts(left), ids[mid..]))
  {
    var halves := Halves(post, n + 1, ids);
    assert RunChunk(post, n, ids) == Both(1, halves.left, halves.right);
  }

  const CHUNK_SIZE := 500

  function Chunks(items: seq<int>, size: nat): seq<seq<int>>
    requires size > 0
    decreases |items|
  {
    if |items| <= size then (if items == [] then [] else [items])
    else [items[..size]] + Chunks(items[size..], size)
  }

  function RunChunks(post: Upstream, n: nat, chunks: seq<seq<int>>): Run
    decreases |chunks|
  {
    if chunks == [] then Empty
    else
      var first := RunChunk(post, n, chunks[0]);
      Both(0, first, RunChunks(post, n + Posts(first), chunks[1..]))
  }

  function RunAll(post: Upstream, ids: seq<int>): Run {
    RunChunks(post, 0, Chunks(ids, CHUNK_SIZE))
  }

  /* --- The mutable accumulator ------------------------------------------------------------ */

  lemma {:induction false} FirstRowSnoc(rows: seq<Row>, r: Row, id: int)
    ensures FirstRow(rows + [r], id) == (
      if FirstRow(rows, id).Some? then FirstRow(rows, id)
      else if r.characterId == id then Some(r) else None)
    decreases |rows|
  {
    if rows == [] {
      assert rows + [r] == [r] && [r][1..] == [];
    } else {
      assert (rows + [r])[1..] == rows[1..] + [r];
      FirstRowSnoc(rows[1..], r, id);
    }
  }

  lemma SeqAssociates(a: seq<int>, b: seq<int>, c: seq<int>)
    ensures a + b + c == a + (b + c)
  {}

  lemma MapAssociates(a: map<int, Row>, b: map<int, Row>, c: map<int, Row>)
    ensures a + b + c == a + (b + c)
  {}

  class Resolver {
    const post: Upstream
    var resolved: map<int, Row>
    var invalid: seq<int>
    var unresolved: seq<int>
    var posts: nat

    constructor (post: Upstream)
      ensures this.post == post
      ensures resolved == map[] && invalid == [] && unresolved == [] && posts == 0
    {
      this.post := post;
      resolved, invalid, unresolved, posts := map[], [], [], 0;
    }

    /** Everything the run contributes has been added, and nothing else. */
    twostate predicate Gained(r: Run)
      reads this
    {
      && resolved == old(resolved) + Resolved(r)
      && invalid == old(invalid) + Invalid(r)
      && unresolved == old(unresolved) + Unresolved(r)
      && posts == old(posts) + Posts(r)
    }

    /** The row loop: the first row of each requested id wins, every other row is ignored. */
    method TakeRows(ids: seq<int>, rows: seq<Row>) returns (returned: set<int>)
      modifies this`resolved
      ensures resolved == old(resolved) + FirstRows(ids, rows)
      ensures forall id :: id in returned <==> id in ids && FirstRow(rows, id).Some?
    {
      returned := {};
      ghost var was := resolved;
      for i := 0 to |rows|
        invariant forall id :: id in returned <==> id in ids && FirstRow(rows[..i], id).Some?
        invariant forall id :: id in resolved <==> id in was || id in returned
        invariant forall id :: id in resolved ==>
          resolved[id] == if id in returned then FirstRow(rows[..i], id).value else was[id]
      {
        var r := rows[i];
        assert rows[..i + 1] == rows[..i] + [r];
        forall id ensures FirstRow(rows[..i + 1], id) == (
          if FirstRow(rows[..i], id).Some? then FirstRow(rows[..i], id)
          else if r.characterId == id then Some(r) else None)
        {
          FirstRowSnoc(rows[..i], r, id);
        }
        if r.characterId in ids && r.characterId !in returned {
          returned := returned + {r.characterId};
          resolved := resolved[r.characterId := r];
        }
      }
      assert rows[..|rows|] == rows;
      var taken := FirstRows(ids, rows);
      assert forall id :: id in returned <==> id in taken;
      forall id ensures id in resolved <==> id in was + taken {}
      forall id | id in resolved ensures resolved[id] == (was + taken)[id] {}
      assert resolved == was + taken;
    }

    /** The loop over the requested ids that got no row. */
    method KeepUnresolved(ids: seq<int>, ghost rows: seq<Row>, returned: set<int>)
      requires forall id :: id in returned <==> id in ids && FirstRow(rows, id).Some?
      modifies this`unresolved
      ensures unresolved == old(unresolved) + Having(ids, rows, false)
    {
      for i := 0 to |ids|
        invariant unresolved == old(unresolved) + Having(ids[..i], rows, false)
      {
        assert ids[..i + 1][..i] == ids[..i];
        if ids[i] !in returned {
          unresolved := unresolved + [ids[i]];
        }
      }
      assert ids[..|ids|] == ids;
    }

    method Resolve(ids: seq<int>)
      modifies this
      ensures Gained(RunChunk(post, old(posts), ids))
      decreases |ids|
    {
      if |ids| == 0 {
        return;
      }
      var answer := post(posts, ids);
      posts := posts + 1;
      match answer
      case Rows(rows) =>
        var returned := TakeRows(ids, rows);
        KeepUnresolved(ids, rows, returned);
      case BadRequest =>
        if |ids| == 1 {
          invalid := invalid + [ids[0]];
        } else {
          Bisect(ids);
        }
      case Failure =>
        unresolved := unresolved + ids;
    }

    /** The two halves of a rejected batch, one after the other. */
    method Bisect(ids: seq<int>)
      requires |ids| > 1
      modifies this
      ensures Gained(Halves(post, old(posts), ids))
      decreases |ids|, 0
    {
      var mid := (|ids| + 1) / 2;
      ghost var n := posts;
      ghost var left := RunChunk(post, n, ids[..mid]);
      Resolve(ids[..mid]);
      ghost var right := RunChunk(post, n + Posts(left), ids[mid..]);
      Resolve(ids[mid..]);
      SeqAssociates(old(invalid), Invalid(left), Invalid(right));
      SeqAssociates(old(unresolved), Unresolved(left), Unresolved(right));
      MapAssociates(old(resolved), Resolved(left), Resolved(right));
      assert Halves(post, n, ids) == Both(0, left, right);
    }

    /** Every chunk in turn. */
    method ResolveAll(chunks: seq<seq<int>>)
      modifies this
      ensures Gained(RunChunks(post, old(posts), chunks))
      decreases |chunks|
    {
      if chunks != [] {
        ghost var n := posts;
        ghost var first := RunChunk(post, n, chunks[0]);
        Resolve(chunks[0]);
        ghost var rest := RunChunks(post, n + Posts(first), chunks[1..]);
        ResolveAll(chunks[1..]);
        SeqAssociates(old(invalid), Invalid(first), Invalid(rest));
        SeqAssociates(old(unresolved), Unresolved(first), Unresolved(rest));
        MapAssociates(old(resolved), Resolved(first), Resolved(rest));
        assert RunChunks(post, n, chunks) == Both(0, first, rest);
      }
    }
  }

  /** The chunking loop. */
  method ChunkItems(items: seq<int>, size: nat) returns (chunks: seq<seq<int>>)
    requires size > 0
    ensures chunks == Chunks(items, size)
  {
    chunks := [];
    var i := 0;
    while i < |items|
      invariant 0 <= i
      invariant i < |items| ==> Chunks(items, size) == chunks + Chunks(items[i..], size)
      invariant i >= |items| ==> Chunks(items, size) == chunks
      decreases |items| - i
    {
      if i + size < |items| {
        assert items[i..i + size] == items[i..][..size];
        assert items[i..][size..] == items[i + size..];
        chunks := chunks + [items[i..i + size]];
      } else {
        assert Chunks(items[i..], size) == [items[i..]];
        chunks := chunks + [items[i..]];
      }
      i := i + size;
    }
  }

  /** The whole resolution. */
  method ResolveAffiliations(ids: seq<int>, post: Upstream) returns (out: Resolver)
    ensures var r := RunAll(post, ids);
      && out.resolved == Resolved(r) && out.invalid == Invalid(r)
      && out.unresolved == Unresolved(r) && out.posts == Posts(r)
  {
    out := new Resolver(post);
    var chunks := ChunkItems(ids, CHUNK_SIZE);
    out.ResolveAll(chunks);
  }

  /* --- Every id ends in exactly one place ------------------------------------------------- */

  function Concat(chunks: seq<seq<int>>): seq<int> {
    if chunks == [] then [] else chunks[0] + Concat(chunks[1..])
  }

  /** Chunking loses, repeats and reorders nothing, and no chunk is empty or too long. */
  lemma {:induction false} ChunksConcat(items: seq<int>, size: nat)
    requires size > 0
    ensures Concat(Chunks(items, size)) == items
    ensures forall i :: 0 <= i < |Chunks(items, size)| ==> 0 < |Chunks(items, size)[i]| <= size
    decreases |items|
  {
    if |items| > size {
      ChunksConcat(items[size..], size);
    } else if items != [] {
      assert [items][1..] == [];
    }
  }

  /** The ids that got a row, once per request. */
  ghost function RowIds(r: Run): seq<int> {
    match r
    case Answered(ids, rows) => Having(ids, rows, true)
    case Both(_, left, right) => RowIds(left) + RowIds(right)
    case _ => []
  }

  ghost function Counted(r: Run): multiset<int> {
    multiset(RowIds(r)) + multiset(Invalid(r)) + multiset(Unresolved(r))
  }

  /** Every id a run was asked about, in order. */
  ghost function Asked(r: Run): seq<int> {
    match r
    case Empty => []
    case Answered(ids, _) => ids
    case Rejected(id) => [id]
    case Failed(ids) => ids
    case Both(_, left, right) => Asked(left) + Asked(right)
  }

  lemma {:induction false} HavingPartitions(ids: seq<int>, rows: seq<Row>)
    ensures multiset(Having(ids, rows, true)) + multiset(Having(ids, rows, false)) == multiset(ids)
    decreases |ids|
  {
    if ids != [] {
      HavingPartitions(ids[..|ids| - 1], rows);
      assert ids == ids[..|ids| - 1] + [ids[|ids| - 1]];
    }
  }

  /** A run accounts for every id it was asked about, once per request. */
  lemma {:induction false} RunCounts(r: Run)
    ensures Counted(r) == multiset(Asked(r))
    decreases r
  {
    match r
    case Answered(ids, rows) => HavingPartitions(ids, rows);
    case Both(_, left, right) =>
      RunCounts(left);
      RunCounts(right);
    case _ =>
  }

  lemma {:induction false} ChunkAsks(post: Upstream, n: nat, ids: seq<int>)
    ensures Asked(RunChunk(post, n, ids)) == ids
    decreases |ids|
  {
    if |ids| > 1 && post(n, ids).BadRequest? {
      var mid := (|ids| + 1) / 2;
      var left := RunChunk(post, n + 1, ids[..mid]);
      ChunkAsks(post, n + 1, ids[..mid]);
      ChunkAsks(post, n + 1 + Posts(left), ids[mid..]);
      assert ids == ids[..mid] + ids[mid..];
    } else if |ids| == 1 {
      assert ids == [ids[0]];
    }
  }

  lemma {:induction false} ChunksAsk(post: Upstream, n: nat, chunks: seq<seq<int>>)
    ensures Asked(RunChunks(post, n, chunks)) == Concat(chunks)
    decreases |chunks|
  {
    if chunks != [] {
      ChunkAsks(post, n, chunks[0]);
      ChunksAsk(post, n + Posts(RunChunk(post, n, chunks[0])), chunks[1..]);
    }
  }

  lemma AllAsked(post: Upstream, ids: seq<int>)
    ensures Asked(RunAll(post, ids)) == ids
  {
    ChunksConcat(ids, CHUNK_SIZE);
    ChunksAsk(post, 0, Chunks(ids, CHUNK_SIZE));
  }

  lemma {:induction false} HavingRows(ids: seq<int>, rows: seq<Row>)
    ensures forall id :: id in Having(ids, rows, true) <==> id in ids && FirstRow(rows, id).Some?
    decreases |ids|
  {
    if ids != [] {
      HavingRows(ids[..|ids| - 1], rows);
      assert ids == ids[..|ids| - 1] + [ids[|ids| - 1]];
    }
  }

  /** The ids that got a row are the resolved ones. */
  lemma {:induction false} ResolvedIds(r: Run)
    ensures forall id :: id in Resolved(r) <==> id in RowIds(r)
    decreases r
  {
    match r
    case Answered(ids, rows) => HavingRows(ids, rows);
    case Both(_, left, right) =>
      ResolvedIds(left);
      ResolvedIds(right);
    case _ =>
  }

  /** Whatever the upstream answers, every one of distinct ids ends in exactly one of resolved,
      invalid and unresolved, exactly once, and no other id appears anywhere. */
  lemma EveryIdEndsOnce(post: Upstream, ids: seq<int>)
    requires Distinct(ids)
    ensures var r := RunAll(post, ids);
      multiset(Resolved(r).Keys) + multiset(Invalid(r)) + multiset(Unresolved(r)) == multiset(ids)
  {
    var r := RunAll(post, ids);
    AllAsked(post, ids);
    RunCounts(r);
    ResolvedIds(r);
    assert Counted(r) == multiset(ids);
    forall id ensures multiset(Resolved(r).Keys)[id] == multiset(RowIds(r))[id] {
      assert Counted(r)[id] == multiset(RowIds(r))[id] + multiset(Invalid(r))[id] + multiset(Unresolved(r))[id];
      DistinctCount(ids, id);
      assert multiset(RowIds(r))[id] <= 1;
    }
    assert multiset(Resolved(r).Keys) == multiset(RowIds(r));
  }

  /** Read for one id: it is requested exactly when it ends somewhere, and it ends nowhere twice. */
  lemma OnePlacePerId(post: Upstream, ids: seq<int>, id: int)
    requires Distinct(ids)
    ensures var r := RunAll(post, ids);
      var places := (if id in Resolved(r) then 1 else 0) + (if id in Invalid(r) then 1 else 0)
                    + (if id in Unresolved(r) then 1 else 0);
      places == if id in ids then 1 else 0
  {
    EveryIdEndsOnce(post, ids);
    var r := RunAll(post, ids);
    var all := multiset(Resolved(r).Keys) + multiset(Invalid(r)) + multiset(Unresolved(r));
    assert all[id] == multiset(Resolved(r).Keys)[id] + multiset(Invalid(r))[id] + multiset(Unresolved(r))[id];
    DistinctCount(ids, id);
    assert all[id] == multiset(ids)[id] <= 1;
  }

  /* --- An upstream that rejects exactly the batches with a bad id -------------------------- */

  ghost predicate HasBad(ids: seq<int>, bad: set<int>) {
    exists i :: 0 <= i < |ids| && ids[i] in bad
  }

  ghost predicate Honest(post: Upstream, bad: set<int>, truth: int -> Row) {
    forall n, ids ::
      if HasBad(ids, bad) then post(n, ids) == BadRequest
      else post(n, ids).Rows?
           && forall id :: id in ids ==> FirstRow(post(n, ids).rows, id) == Some(truth(id))
  }

  function Only(ids: seq<int>, bad: set<int>): seq<int> {
    if ids == [] then [] else (if ids[0] in bad then [ids[0]] else []) + Only(ids[1..], bad)
  }

  lemma {:induction false} OnlyConcat(a: seq<int>, b: seq<int>, bad: set<int>)
    ensures Only(a + b, bad) == Only(a, bad) + Only(b, bad)
    decreases |a|
  {
    if a == [] {
      assert a + b == b;
    } else {
      assert (a + b)[1..] == a[1..] + b;
      OnlyConcat(a[1..], b, bad);
      var head := if a[0] in bad then [a[0]] else [];
      assert head + (Only(a[1..], bad) + Only(b, bad)) == head + Only(a[1..], bad) + Only(b, bad);
    }
  }

  lemma {:induction false} OnlyNone(ids: seq<int>, bad: set<int>)
    ensures Only(ids, bad) != [] <==> HasBad(ids, bad)
    decreases |ids|
  {
    if ids != [] {
      OnlyNone(ids[1..], bad);
      if HasBad(ids[1..], bad) {
        var i :| 0 <= i < |ids[1..]| && ids[1..][i] in bad;
        assert ids[i + 1] in bad;
      }
      if HasBad(ids, bad) && ids[0] !in bad {
        var i :| 0 <= i < |ids| && ids[i] in bad;
        assert ids[1..][i - 1] in bad;
      }
    }
  }

  lemma {:induction false} NoneMissing(ids: seq<int>, rows: seq<Row>)
    requires forall id :: id in ids ==> FirstRow(rows, id).Some?
    ensures Having(ids, rows, false) == []
    decreases |ids|
  {
    if ids != [] {
      NoneMissing(ids[..|ids| - 1], rows);
    }
  }

  /** What an honest upstream leads to. */
  ghost predicate Exact(r: Run, ids: seq<int>, bad: set<int>, truth: int -> Row) {
    && Invalid(r) == Only(ids, bad) && Unresolved(r) == []
    && (forall id :: id in Resolved(r) <==> id in ids && id !in bad)
    && (forall id :: id in Resolved(r) ==> Resolved(r)[id] == truth(id))
  }

  /** Each answer of a run is the honest one for what it was asked. */
  ghost predicate Justified(r: Run, bad: set<int>, truth: int -> Row) {
    match r
    case Empty => true
    case Answered(ids, rows) =>
      !HasBad(ids, bad) && forall id :: id in ids ==> FirstRow(rows, id) == Some(truth(id))
    case Rejected(id) => id in bad
    case Failed(_) => false
    case Both(rejections, left, right) =>
      && Justified(left, bad, truth) && Justified(right, bad, truth)
      && rejections <= 1 && (rejections == 1 ==> Invalid(left) + Invalid(right) != [])
  }

  lemma {:induction false} JustifiedIsExact(r: Run, bad: set<int>, truth: int -> Row)
    requires Justified(r, bad, truth)
    ensures Exact(r, Asked(r), bad, truth)
    decreases r
  {
    match r
    case Answered(ids, rows) =>
      OnlyNone(ids, bad);
      NoneMissing(ids, rows);
    case Both(_, left, right) =>
      JustifiedIsExact(left, bad, truth);
      JustifiedIsExact(right, bad, truth);
      OnlyConcat(Asked(left), Asked(right), bad);
    case _ =>
  }

  /** A rejected batch of several is justified by its halves: one of them holds the bad id. */
  lemma RejectionJustified(ids: seq<int>, left: Run, right: Run, bad: set<int>, truth: int -> Row)
    requires Justified(left, bad, truth) && Justified(right, bad, truth)
    requires Asked(left) + Asked(right) == ids && HasBad(ids, bad)
    ensures Justified(Both(1, left, right), bad, truth)
  {
    JustifiedIsExact(left, bad, truth);
    JustifiedIsExact(right, bad, truth);
    OnlyConcat(Asked(left), Asked(right), bad);
    OnlyNone(ids, bad);
  }

  lemma {:induction false} ChunkJustified(post: Upstream, n: nat, ids: seq<int>, bad: set<int>,
                                          truth: int -> Row)
    requires Honest(post, bad, truth)
    ensures Justified(RunChunk(post, n, ids), bad, truth)
    decreases |ids|
  {
    assert if HasBad(ids, bad) then post(n, ids) == BadRequest else post(n, ids).Rows?;
    if |ids| > 1 && HasBad(ids, bad) {
      var mid := (|ids| + 1) / 2;
      var left := RunChunk(post, n + 1, ids[..mid]);
      var right := RunChunk(post, n + 1 + Posts(left), ids[mid..]);
      ChunkJustified(post, n + 1, ids[..mid], bad, truth);
      ChunkJustified(post, n + 1 + Posts(left), ids[mid..], bad, truth);
      RejectedRun(post, n, ids);
      ChunkAsks(post, n + 1, ids[..mid]);
      ChunkAsks(post, n + 1 + Posts(left), ids[mid..]);
      assert ids[..mid] + ids[mid..] == ids;
      RejectionJustified(ids, left, right, bad, truth);
    }
  }

  lemma {:induction false} ChunksJustified(post: Upstream, n: nat, chunks: seq<seq<int>>,
                                           bad: set<int>, truth: int -> Row)
    requires Honest(post, bad, truth)
    ensures Justified(RunChunks(post, n, chunks), bad, truth)
    decreases |chunks|
  {
    if chunks != [] {
      ChunkJustified(post, n, chunks[0], bad, truth);
      ChunksJustified(post, n + Posts(RunChunk(post, n, chunks[0])), chunks[1..], bad, truth);
    }
  }

  /** Rounded-up binary logarithm. */
  function CeilLog2(n: nat): nat {
    if n <= 1 then 0 else 1 + CeilLog2((n + 1) / 2)
  }

  lemma {:induction false} CeilLog2Mono(a: nat, b: nat)
    requires a <= b
    ensures CeilLog2(a) <= CeilLog2(b)
    decreases b
  {
    if b > 1 && a > 1 {
      CeilLog2Mono((a + 1) / 2, (b + 1) / 2);
    }
  }

  /** How often the most often bisected id was in a rejected batch of several. */
  ghost function Depth(r: Run): nat {
    match r
    case Both(rejections, left, right) =>
      rejections + if Depth(left) >= Depth(right) then Depth(left) else Depth(right)
    case _ => 0
  }

  lemma {:induction false} ChunkDepth(post: Upstream, n: nat, ids: seq<int>)
    ensures Depth(RunChunk(post, n, ids)) <= CeilLog2(|ids|)
    decreases |ids|
  {
    if |ids| > 1 && post(n, ids).BadRequest? {
      var mid := (|ids| + 1) / 2;
      ChunkDepth(post, n + 1, ids[..mid]);
      ChunkDepth(post, n + 1 + Posts(RunChunk(post, n + 1, ids[..mid])), ids[mid..]);
      CeilLog2Mono(|ids| - mid, mid);
    }
  }

  /** A run that starts with one batch and bisects only batches with a bad id. */
  ghost predicate Bisection(r: Run) {
    match r
    case Both(rejections, left, right) =>
      rejections == 1 && Bisection(left) && Bisection(right) && Invalid(left) + Invalid(right) != []
    case _ => true
  }

  lemma {:induction false} BisectionCost(r: Run)
    requires Bisection(r)
    ensures Posts(r) <= 1 + 2 * (|Invalid(r)| * Depth(r))
    decreases r
  {
    NonNegative(|Invalid(r)|, Depth(r));
    match r
    case Both(_, left, right) =>
      BisectionCost(left);
      BisectionCost(right);
      var k1, k2, d := |Invalid(left)|, |Invalid(right)|, Depth(r) - 1;
      CostScale(k1, Depth(left), d);
      CostScale(k2, Depth(right), d);
      CostSum(k1, k2, d);
      assert Posts(r) == 1 + Posts(left) + Posts(right);
    case _ =>
  }

  lemma {:induction false} ChunkBisects(post: Upstream, n: nat, ids: seq<int>, bad: set<int>,
                                        truth: int -> Row)
    requires Justified(RunChunk(post, n, ids), bad, truth)
    ensures Bisection(RunChunk(post, n, ids))
    decreases |ids|
  {
    if |ids| > 1 && post(n, ids).BadRequest? {
      var mid := (|ids| + 1) / 2;
      RejectedRun(post, n, ids);
      ChunkBisects(post, n + 1, ids[..mid], bad, truth);
      ChunkBisects(post, n + 1 + Posts(RunChunk(post, n + 1, ids[..mid])), ids[mid..], bad, truth);
    }
  }

  /** Bisecting a chunk of `n` ids with `k` bad ones costs at most `1 + 2k * ceil(log2 n)` posts. */
  lemma ChunkCost(post: Upstream, n: nat, ids: seq<int>, bad: set<int>, truth: int -> Row)
    requires Honest(post, bad, truth)
    ensures Posts(RunChunk(post, n, ids)) <= 1 + 2 * (|Only(ids, bad)| * CeilLog2(|ids|))
  {
    var r := RunChunk(post, n, ids);
    ChunkJustified(post, n, ids, bad, truth);
    JustifiedIsExact(r, bad, truth);
    ChunkAsks(post, n, ids);
    ChunkBisects(post, n, ids, bad, truth);
    BisectionCost(r);
    ChunkDepth(post, n, ids);
    CostScale(|Invalid(r)|, Depth(r), CeilLog2(|ids|));
  }

  lemma NonNegative(a: nat, b: nat)
    ensures a * b >= 0
  {}

  lemma CostSum(k1: nat, k2: nat, d: nat)
    requires k1 + k2 >= 1
    ensures 1 + (1 + 2 * (k1 * d)) + (1 + 2 * (k2 * d)) <= 1 + 2 * ((k1 + k2) * (d + 1))
  {
    assert (k1 + k2) * (d + 1) == (k1 + k2) + (k1 * d + k2 * d);
  }

  lemma CostScale(k: nat, a: nat, b: nat)
    requires a <= b
    ensures k * a <= k * b
  {}

  lemma {:induction false} ChunksCost(post: Upstream, n: nat, chunks: seq<seq<int>>, bad: set<int>,
                                      truth: int -> Row, size: nat)
    requires Honest(post, bad, truth)
    requires forall i :: 0 <= i < |chunks| ==> |chunks[i]| <= size
    ensures Posts(RunChunks(post, n, chunks))
         <= |chunks| + 2 * (|Only(Concat(chunks), bad)| * CeilLog2(size))
    decreases |chunks|
  {
    NonNegative(|Only(Concat(chunks), bad)|, CeilLog2(size));
    if chunks != [] {
      var first := RunChunk(post, n, chunks[0]);
      ChunkCost(post, n, chunks[0], bad, truth);
      CeilLog2Mono(|chunks[0]|, size);
      ChunksCost(post, n + Posts(first), chunks[1..], bad, truth, size);
      OnlyConcat(chunks[0], Concat(chunks[1..]), bad);
      var k1, k2 := |Only(chunks[0], bad)|, |Only(Concat(chunks[1..]), bad)|;
      CostScale(k1, CeilLog2(|chunks[0]|), CeilLog2(size));
      DistributeSum(k1, k2, CeilLog2(size));
    }
  }

  lemma DistributeSum(a: nat, b: nat, c: nat)
    ensures (a + b) * c == a * c + b * c
  {}

  /** Against an upstream that answers 400 exactly for batches containing a bad id and otherwise
      returns every row, the invalid ids are exactly the bad ones, in order, every other id gets
      its true row, and the posts are few. */
  lemma HonestUpstreamIsExact(post: Upstream, ids: seq<int>, bad: set<int>, truth: int -> Row)
    requires Honest(post, bad, truth)
    ensures var r := RunAll(post, ids);
      && Invalid(r) == Only(ids, bad) && Unresolved(r) == []
      && (forall id :: id in Resolved(r) <==> id in ids && id !in bad)
      && (forall id :: id in Resolved(r) ==> Resolved(r)[id] == truth(id))
      && Posts(r) <= |Chunks(ids, CHUNK_SIZE)| + 2 * (|Only(ids, bad)| * CeilLog2(CHUNK_SIZE))
  {
    ChunksJustified(post, 0, Chunks(ids, CHUNK_SIZE), bad, truth);
    JustifiedIsExact(RunAll(post, ids), bad, truth);
    AllAsked(post, ids);
    ChunksConcat(ids, CHUNK_SIZE);
    ChunksCost(post, 0, Chunks(ids, CHUNK_SIZE), bad, truth, CHUNK_SIZE);
  }

  /** In numbers: one post for every five hundred ids or part of them, and eighteen for each bad id. */
  lemma HonestPosts(post: Upstream, ids: seq<int>, bad: set<int>, truth: int -> Row)
    requires Honest(post, bad, truth)
    ensures Posts(RunAll(post, ids)) <= (|ids| + 499) / 500 + 18 * |Only(ids, bad)|
  {
    HonestUpstreamIsExact(post, ids, bad, truth);
    ChunkCount(ids, CHUNK_SIZE);
    NineHalvings();
    Commute(|Only(ids, bad)|, CeilLog2(CHUNK_SIZE));
  }

  lemma Commute(k: nat, c: nat)
    requires c == 9
    ensures 2 * (k * c) == 18 * k
  {}

  lemma NineHalvings()
    ensures CeilLog2(500) == 9
  {}

  lemma {:induction false} ChunkCount(items: seq<int>, size: nat)
    requires size > 0
    ensures |Chunks(items, size)| == (|items| + size - 1) / size
    decreases |items|
  {
    if |items| > size {
      ChunkCount(items[size..], size);
      OneMore(|items| - 1, size);
    } else if items != [] {
      OneMore(|items| - 1, size);
      Smaller(|items| - 1, size);
    } else {
      Smaller(size - 1, size);
    }
  }

  lemma OneMore(n: int, size: nat)
    requires size > 0
    ensures (n + size) / size == n / size + 1
  {
    var q, r := n / size, n % size;
    assert n + size == q * size + size + r;
    Quotient(n + size, q + 1, r, size);
  }

  lemma Quotient(x: int, q: int, r: int, size: nat)
    requires 0 <= r < size && x == q * size + r
    ensures x / size == q
  {
    assert x == x / size * size + x % size;
    Difference(x / size, q, size);
    SmallMultiple(x / size - q, size);
  }

  lemma Difference(a: int, b: int, size: nat)
    ensures (a - b) * size == a * size - b * size
  {}

  lemma SmallMultiple(k: int, size: nat)
    ensures k >= 1 ==> k * size >= size
    ensures k <= -1 ==> k * size <= 0 - size
  {}

  lemma Smaller(n: int, size: nat)
    requires 0 <= n < size
    ensures n / size == 0
  {}

  lemma {:induction false} OnePostEach(post: Upstream, n: nat, chunks: seq<seq<int>>, truth: int -> Row)
    requires Honest(post, {}, truth) && forall i :: 0 <= i < |chunks| ==> chunks[i] != []
    ensures Posts(RunChunks(post, n, chunks)) == |chunks|
    decreases |chunks|
  {
    if chunks != [] {
      assert !HasBad(chunks[0], {});
      assert post(n, chunks[0]).Rows?;
      OnePostEach(post, n + 1, chunks[1..], truth);
    }
  }

  /** Without bad ids, exactly one post for every five hundred ids or part of them. */
  lemma CleanPosts(post: Upstream, ids: seq<int>, truth: int -> Row)
    requires Honest(post, {}, truth)
    ensures Posts(RunAll(post, ids)) == (|ids| + 499) / 500
  {
    ChunksConcat(ids, CHUNK_SIZE);
    ChunkCount(ids, CHUNK_SIZE);
    OnePostEach(post, 0, Chunks(ids, CHUNK_SIZE), truth);
  }

  /* --- Why an id ends where it does ------------------------------------------------------- */

  /** The first of the rows that bears the id, and no later one. */
  lemma {:induction false} FirstRowIs(rows: seq<Row>, id: int)
    ensures FirstRow(rows, id).None? <==> forall i :: 0 <= i < |rows| ==> rows[i].characterId != id
    ensures FirstRow(rows, id).Some? ==>
      exists k :: 0 <= k < |rows| && rows[k] == FirstRow(rows, id).value && rows[k].characterId == id
                  && forall i :: 0 <= i < k ==> rows[i].characterId != id
    decreases |rows|
  {
    if rows != [] {
      FirstRowIs(rows[1..], id);
      assert forall i :: 0 < i < |rows| ==> rows[1..][i - 1] == rows[i];
      if rows[0].characterId != id && FirstRow(rows[1..], id).Some? {
        var k :| 0 <= k < |rows[1..]| && rows[1..][k] == FirstRow(rows[1..], id).value
          && rows[1..][k].characterId == id && forall i :: 0 <= i < k ==> rows[1..][i].characterId != id;
        assert rows[k + 1] == FirstRow(rows, id).value;
        forall i | 0 <= i < k + 1 ensures rows[i].characterId != id {
          if i > 0 {
            assert rows[1..][i - 1].characterId != id;
          }
        }
      }
    }
  }

  /** The upstream was asked for this id alone, and refused. */
  ghost predicate RefusedAlone(post: Upstream, id: int) {
    exists n :: post(n, [id]).BadRequest?
  }

  /** A request with this id failed otherwise, or was answered without it. */
  ghost predicate LeftOpen(post: Upstream, id: int) {
    exists n, ids :: id in ids
      && (post(n, ids).Failure? || (post(n, ids).Rows? && FirstRow(post(n, ids).rows, id).None?))
  }

  ghost predicate AnsweredWith(post: Upstream, id: int, row: Row) {
    exists n, ids :: id in ids && post(n, ids).Rows? && FirstRow(post(n, ids).rows, id) == Some(row)
  }

  ghost predicate Explained(post: Upstream, r: Run, id: int) {
    && (id in Invalid(r) ==> RefusedAlone(post, id))
    && (id in Unresolved(r) ==> LeftOpen(post, id))
    && (id in Resolved(r) ==> AnsweredWith(post, id, Resolved(r)[id]))
  }

  lemma {:induction false} HavingIds(ids: seq<int>, rows: seq<Row>)
    ensures forall id :: id in Having(ids, rows, false) ==> id in ids && FirstRow(rows, id).None?
    decreases |ids|
  {
    if ids != [] {
      HavingIds(ids[..|ids| - 1], rows);
    }
  }

  lemma {:induction false} ChunkExplained(post: Upstream, n: nat, ids: seq<int>, id: int)
    ensures Explained(post, RunChunk(post, n, ids), id)
    decreases |ids|
  {
    if ids != [] {
      match post(n, ids)
      case Rows(rows) =>
        HavingIds(ids, rows);
      case Failure =>
      case BadRequest =>
        if |ids| == 1 {
          assert ids == [ids[0]];
        } else {
          var mid := (|ids| + 1) / 2;
          ChunkExplained(post, n + 1, ids[..mid], id);
          ChunkExplained(post, n + 1 + Posts(RunChunk(post, n + 1, ids[..mid])), ids[mid..], id);
          RejectedRun(post, n, ids);
        }
    }
  }

  lemma {:induction false} ChunksExplained(post: Upstream, n: nat, chunks: seq<seq<int>>, id: int)
    ensures Explained(post, RunChunks(post, n, chunks), id)
    decreases |chunks|
  {
    if chunks != [] {
      ChunkExplained(post, n, chunks[0], id);
      ChunksExplained(post, n + Posts(RunChunk(post, n, chunks[0])), chunks[1..], id);
    }
  }

  /** Against any upstream: an id is invalid only if it was refused alone, unresolved only if a request with it
      failed otherwise or was answered without it, and resolved only to the first row answered for it. An outage
      makes no id invalid. */
  lemma EveryPlaceIsExplained(post: Upstream, ids: seq<int>, id: int)
    ensures var r := RunAll(post, ids);
      && (id in Invalid(r) ==> exists n :: post(n, [id]).BadRequest?)
      && (id in Unresolved(r) ==> LeftOpen(post, id))
      && (id in Resolved(r) ==> AnsweredWith(post, id, Resolved(r)[id]))
  {
    ChunksExplained(post, 0, Chunks(ids, CHUNK_SIZE), id);
  }
}
