/**
 * The paged Merkle tree of the manifest oracle. The hash is a parameter: nothing is assumed
 * of it beyond the digest length, so results about binding name the two hashed strings that
 * would have to collide.
 */
module Merkle {
  import opened Bytes
  import opened ManifestCbor

  type Digest = d: Bytes | |d| == 32 witness seq(32, i => 0)
  type Hash = Bytes -> Digest

  const DOMAIN_EMPTY: Bytes := Ascii("pm-v1/manifest-empty\0")
  const DOMAIN_LEAF: Bytes := Ascii("pm-v1/manifest-leaf\0")
  const DOMAIN_CHUNK: Bytes := Ascii("pm-v1/manifest-chunk\0")
  const DOMAIN_NODE: Bytes := Ascii("pm-v1/manifest-node\0")

  // One tuple the tree builder receives: record ID, leaf, leaf hash, relationship commitment.
  datatype Row = Row(id: Bytes, leaf: Value, leafHash: Digest, commitment: Bytes)

  datatype TreeError = ZeroPageSize | NoChunks | Cbor(error: CborError)
  datatype Tree = Tree(root: Digest, leafHashes: seq<Digest>, nodes: seq<Digest>)

  /* ---------- sorting by record ID ---------- */

  predicate Sorted(rows: seq<Row>) {
    forall i, j :: 0 <= i < j < |rows| ==> LexLeq(rows[i].id, rows[j].id)
  }

  predicate DistinctIds(rows: seq<Row>) {
    forall i, j :: 0 <= i < j < |rows| ==> rows[i].id != rows[j].id
  }

  // The rows with one key, in order: what a stable sort may not disturb.
  function WithId(rows: seq<Row>, id: Bytes): seq<Row> {
    if rows == [] then []
    else if rows[0].id == id then [rows[0]] + WithId(rows[1..], id)
    else WithId(rows[1..], id)
  }

  function Insert(row: Row, rows: seq<Row>): (r: seq<Row>)
    ensures multiset(r) == multiset([row]) + multiset(rows)
  {
    if rows == [] then [row]
    else if LexLeq(row.id, rows[0].id) then [row] + rows
    else
      assert rows == [rows[0]] + rows[1..];
      [rows[0]] + Insert(row, rows[1..])
  }

  // sorted(rows, key=lambda row: row[0])
  function SortById(rows: seq<Row>): (r: seq<Row>)
    ensures multiset(r) == multiset(rows)
  {
    if rows == [] then []
    else
      assert rows == [rows[0]] + rows[1..];
      Insert(rows[0], SortById(rows[1..]))
  }

  lemma {:induction false} InsertSorted(row: Row, rows: seq<Row>)
    requires Sorted(rows)
    ensures Sorted(Insert(row, rows))
  {
    if rows == [] {
    } else if LexLeq(row.id, rows[0].id) {
      forall j | 0 <= j < |rows| ensures LexLeq(row.id, rows[j].id) {
        if j > 0 { LexTransitive(row.id, rows[0].id, rows[j].id); }
      }
    } else {
      var rest := Insert(row, rows[1..]);
      InsertSorted(row, rows[1..]);
      forall j | 0 <= j < |rest| ensures LexLeq(rows[0].id, rest[j].id) {
        LexTotal(row.id, rows[0].id);
        assert rest[j] in multiset(rest);
        assert rest[j] == row || rest[j] in rows[1..];
      }
    }
  }

  lemma {:induction false} InsertKeepsOthers(row: Row, rows: seq<Row>, id: Bytes)
    requires row.id != id
    ensures WithId(Insert(row, rows), id) == WithId(rows, id)
  {
    hide LexLeq;
    if rows != [] && !LexLeq(row.id, rows[0].id) {
      InsertKeepsOthers(row, rows[1..], id);
      assert Insert(row, rows)[1..] == Insert(row, rows[1..]);
    }
  }

  lemma {:induction false} InsertBeforeEquals(row: Row, rows: seq<Row>)
    ensures WithId(Insert(row, rows), row.id) == [row] + WithId(rows, row.id)
  {
    hide LexLeq;
    if rows != [] && !LexLeq(row.id, rows[0].id) {
      LexTotal(row.id, row.id);
      InsertBeforeEquals(row, rows[1..]);
      assert Insert(row, rows)[1..] == Insert(row, rows[1..]);
    }
  }

  // The sort is the stable one: sorted, a permutation, equal keys in their original order.
  lemma {:induction false} SortIsStable(rows: seq<Row>, id: Bytes)
    ensures Sorted(SortById(rows))
    ensures multiset(SortById(rows)) == multiset(rows)
    ensures WithId(SortById(rows), id) == WithId(rows, id)
  {
    if rows != [] {
      var rest := SortById(rows[1..]);
      SortIsStable(rows[1..], id);
      InsertSorted(rows[0], rest);
      if rows[0].id == id {
        InsertBeforeEquals(rows[0], rest);
      } else {
        InsertKeepsOthers(rows[0], rest, id);
      }
    }
  }

  lemma SortKeepsRows(rows: seq<Row>)
    ensures |SortById(rows)| == |rows| && forall r :: r in SortById(rows) <==> r in rows
  {
    PermutationMembers(SortById(rows), rows);
  }

  lemma {:induction false} InsertDistinct(row: Row, rows: seq<Row>)
    requires DistinctIds(rows) && forall r <- rows :: r.id != row.id
    ensures DistinctIds(Insert(row, rows))
  {
    if rows != [] && !LexLeq(row.id, rows[0].id) {
      InsertDistinct(row, rows[1..]);
      var rest := Insert(row, rows[1..]);
      PermutationMembers(rest, [row] + rows[1..]);
      assert forall r <- rest :: r == row || r in rows[1..];
      assert forall r <- rest :: r.id != rows[0].id;
    }
  }

  lemma {:induction false} SortDistinct(rows: seq<Row>)
    requires DistinctIds(rows)
    ensures DistinctIds(SortById(rows))
  {
    if rows != [] {
      SortDistinct(rows[1..]);
      SortKeepsRows(rows[1..]);
      InsertDistinct(rows[0], SortById(rows[1..]));
    }
  }

  lemma SortedFirst(a: seq<Row>, b: seq<Row>)
    requires a != [] && Sorted(a) && Sorted(b) && DistinctIds(a) && multiset(a) == multiset(b)
    ensures b != [] && a[0] == b[0]
  {
    PermutationMembers(a, b);
    assert b[0] in a && a[0] in b;
    var i :| 0 <= i < |b| && b[i] == a[0];
    var j :| 0 <= j < |a| && a[j] == b[0];
    assert i > 0 ==> LexLeq(b[0].id, a[0].id);
    assert j > 0 ==> LexLeq(a[0].id, b[0].id);
    LexTotal(a[0].id, b[0].id);
  }

  lemma {:induction false} SortedPermutationUnique(a: seq<Row>, b: seq<Row>)
    requires Sorted(a) && Sorted(b) && DistinctIds(a) && multiset(a) == multiset(b)
    ensures a == b
  {
    hide LexLeq;
    PermutationMembers(a, b);
    if a != [] {
      SortedFirst(a, b);
      assert a == [a[0]] + a[1..] && b == [b[0]] + b[1..];
      TailPermutation(a[0], a[1..], b[1..]);
      SortedPermutationUnique(a[1..], b[1..]);
    }
  }

  /* ---------- pages and levels ---------- */

  function LeafHashes(rows: seq<Row>): (r: seq<Digest>)
    ensures |r| == |rows| && forall i :: 0 <= i < |r| ==> r[i] == rows[i].leafHash
  {
    seq(|rows|, i requires 0 <= i < |rows| => rows[i].leafHash)
  }

  function Leaves(rows: seq<Row>): (r: seq<Value>)
    ensures |r| == |rows| && forall i :: 0 <= i < |r| ==> r[i] == rows[i].leaf
  {
    seq(|rows|, i requires 0 <= i < |rows| => rows[i].leaf)
  }

  function HashItems(hashes: seq<Digest>): (r: seq<Value>)
    ensures |r| == |hashes| && forall i :: 0 <= i < |r| ==> r[i] == ByteString(hashes[i])
  {
    seq(|hashes|, i requires 0 <= i < |hashes| => ByteString(hashes[i]))
  }

  // [chunk_index, first id, last id, leaf hashes]
  function ChunkBody(index: nat, rows: seq<Row>): Value
    requires rows != []
  {
    List([Int(index), ByteString(rows[0].id), ByteString(rows[|rows| - 1].id),
          List(HashItems(LeafHashes(rows)))])
  }

  function PageEnd(rows: seq<Row>, start: nat, pageSize: nat): (end: nat)
    requires pageSize > 0
    ensures start < |rows| ==> start < end <= |rows|
  {
    if start + pageSize < |rows| then start + pageSize else |rows|
  }

  // Domain-separated encodings of the chunk bodies of rows[start..], numbered from index.
  function ChunkStrings(rows: seq<Row>, start: nat, pageSize: nat, index: nat)
    : (r: Result<seq<Bytes>, TreeError>)
    requires pageSize > 0
    decreases |rows| - start
  {
    if start >= |rows| then Ok([])
    else
      var body := Encode(ChunkBody(index, rows[start..PageEnd(rows, start, pageSize)]));
      if body.Err? then Err(Cbor(body.error))
      else
        var rest := ChunkStrings(rows, start + pageSize, pageSize, index + 1);
        if rest.Err? then rest else Ok([DOMAIN_CHUNK + body.value] + rest.value)
  }

  function Digests(H: Hash, strings: seq<Bytes>): (r: seq<Digest>)
    ensures |r| == |strings| && forall i :: 0 <= i < |r| ==> r[i] == H(strings[i])
  {
    seq(|strings|, i requires 0 <= i < |strings| => H(strings[i]))
  }

  function Join(H: Hash, left: Digest, right: Digest): Digest {
    H(DOMAIN_NODE + left + right)
  }

  // The next level: neighbours joined, an odd last digest promoted unchanged.
  function Following(H: Hash, level: seq<Digest>): (r: seq<Digest>)
    ensures |r| == (|level| + 1) / 2
  {
    if |level| < 2 then level
    else [Join(H, level[0], level[1])] + Following(H, level[2..])
  }

  // The nodes created on the way to the next level.
  function Created(H: Hash, level: seq<Digest>): (r: seq<Digest>)
    ensures |r| == |level| / 2
  {
    if |level| < 2 then []
    else [Join(H, level[0], level[1])] + Created(H, level[2..])
  }

  function RootOf(H: Hash, level: seq<Digest>): Digest
    requires level != []
    decreases |level|
  {
    if |level| == 1 then level[0] else RootOf(H, Following(H, level))
  }

  function InnerNodes(H: Hash, level: seq<Digest>): seq<Digest>
    requires level != []
    decreases |level|
  {
    if |level| == 1 then [] else Created(H, level) + InnerNodes(H, Following(H, level))
  }

  function Build(H: Hash, rows: seq<Row>, pageSize: int): Result<Tree, TreeError> {
    if rows == [] then Ok(Tree(H(DOMAIN_EMPTY), [], []))
    else if pageSize == 0 then Err(ZeroPageSize)
    else if pageSize < 0 then Err(NoChunks)
    else
      var ordered := SortById(rows);
      var strings := ChunkStrings(ordered, 0, pageSize, 0);
      if strings.Err? then Err(strings.error)
      else
        ChunkCount(ordered, 0, pageSize, 0);
        var chunks := Digests(H, strings.value);
        Ok(Tree(RootOf(H, chunks), LeafHashes(ordered), chunks + InnerNodes(H, chunks)))
  }

  lemma {:induction false} ChunkCount(rows: seq<Row>, start: nat, pageSize: nat, index: nat)
    requires pageSize > 0 && ChunkStrings(rows, start, pageSize, index).Ok?
    ensures var count := |ChunkStrings(rows, start, pageSize, index).value|;
            if start >= |rows| then count == 0
            else (count - 1) * pageSize < |rows| - start <= count * pageSize
    decreases |rows| - start
  {
    hide Encode, ChunkBody;
    if start < |rows| {
      ChunkCount(rows, start + pageSize, pageSize, index + 1);
      var rest := |ChunkStrings(rows, start + pageSize, pageSize, index + 1).value|;
      OneMore(rest, pageSize);
      OneMore(rest - 1, pageSize);
    }
  }

  lemma OneMore(count: int, size: nat)
    ensures (count + 1) * size == count * size + size
  {
  }

  lemma {:induction false} InnerNodeCount(H: Hash, level: seq<Digest>)
    requires level != []
    ensures |InnerNodes(H, level)| == |level| - 1
    decreases |level|
  {
    if |level| > 1 {
      InnerNodeCount(H, Following(H, level));
    }
  }

  // One node per page, and exactly one inner node fewer than there are pages.
  lemma NodeCount(H: Hash, rows: seq<Row>, pageSize: int)
    requires Build(H, rows, pageSize).Ok?
    ensures var nodes := |Build(H, rows, pageSize).value.nodes|;
            if rows == [] then nodes == 0
            else exists pages: nat :: nodes == 2 * pages - 1
                                   && (pages - 1) * pageSize < |rows| <= pages * pageSize
  {
    if rows != [] {
      var ordered := SortById(rows);
      assert |ordered| == |multiset(ordered)| == |rows|;
      var strings := ChunkStrings(ordered, 0, pageSize, 0).value;
      ChunkCount(ordered, 0, pageSize, 0);
      InnerNodeCount(H, Digests(H, strings));
      var pages: nat := |strings|;
      assert (pages - 1) * pageSize < |rows| <= pages * pageSize;
    }
  }

  // For distinct record IDs the tree does not depend on the order rows arrive in.
  lemma OrderIndependent(H: Hash, a: seq<Row>, b: seq<Row>, pageSize: int)
    requires DistinctIds(a) && multiset(a) == multiset(b)
    ensures Build(H, a, pageSize) == Build(H, b, pageSize)
  {
    PermutationMembers(a, b);
    SortIsStable(a, []);
    SortIsStable(b, []);
    SortDistinct(a);
    SortedPermutationUnique(SortById(a), SortById(b));
  }

  /* ---------- binding ---------- */

  // The tree behind a root: what was hashed, and how the digests were joined.
  datatype Node = Chunk(preimage: Bytes) | Inner(left: Node, right: Node)

  function DigestOf(H: Hash, node: Node): Digest {
    match node
    case Chunk(preimage) => H(preimage)
    case Inner(left, right) => Join(H, DigestOf(H, left), DigestOf(H, right))
  }

  // Every preimage hashed for this tree.
  function Hashed(H: Hash, node: Node): set<Bytes> {
    match node
    case Chunk(preimage) => {preimage}
    case Inner(left, right) =>
      {DOMAIN_NODE + DigestOf(H, left) + DigestOf(H, right)} + Hashed(H, left) + Hashed(H, right)
  }

  predicate ChunkTree(node: Node) {
    match node
    case Chunk(preimage) => DOMAIN_CHUNK <= preimage
    case Inner(left, right) => ChunkTree(left) && ChunkTree(right)
  }

  function Chunks(node: Node): (r: seq<Bytes>) {
    match node
    case Chunk(preimage) => [preimage]
    case Inner(left, right) => Chunks(left) + Chunks(right)
  }

  function AllChunks(nodes: seq<Node>): seq<Bytes> {
    if nodes == [] then [] else Chunks(nodes[0]) + AllChunks(nodes[1..])
  }

  function DigestsOf(H: Hash, nodes: seq<Node>): (r: seq<Digest>)
    ensures |r| == |nodes|
  {
    if nodes == [] then [] else [DigestOf(H, nodes[0])] + DigestsOf(H, nodes[1..])
  }

  function FollowingNodes(level: seq<Node>): (r: seq<Node>)
    ensures |r| == (|level| + 1) / 2
  {
    if |level| < 2 then level else [Inner(level[0], level[1])] + FollowingNodes(level[2..])
  }

  function RootNode(level: seq<Node>): Node
    requires level != []
    decreases |level|
  {
    if |level| == 1 then level[0] else RootNode(FollowingNodes(level))
  }

  function ChunkNodes(strings: seq<Bytes>): (r: seq<Node>)
    ensures |r| == |strings|
  {
    if strings == [] then [] else [Chunk(strings[0])] + ChunkNodes(strings[1..])
  }

  lemma {:induction false} FollowingDigests(H: Hash, level: seq<Node>)
    ensures DigestsOf(H, FollowingNodes(level)) == Following(H, DigestsOf(H, level))
    decreases |level|
  {
    if |level| >= 2 {
      var rest := level[2..];
      FollowingDigests(H, rest);
      assert FollowingNodes(level)[1..] == FollowingNodes(rest);
      assert level[1..][1..] == rest;
      assert DigestsOf(H, level)[2..] == DigestsOf(H, rest);
    }
  }

  lemma {:induction false} FollowingChunks(level: seq<Node>)
    ensures AllChunks(FollowingNodes(level)) == AllChunks(level)
    decreases |level|
  {
    if |level| >= 2 {
      var rest := level[2..];
      FollowingChunks(rest);
      assert FollowingNodes(level)[1..] == FollowingNodes(rest);
      assert level[1..][1..] == rest;
      var (l, r, more) := (Chunks(level[0]), Chunks(level[1]), AllChunks(rest));
      assert l + (r + more) == (l + r) + more;
    }
  }

  predicate AllChunkTrees(nodes: seq<Node>) {
    forall i :: 0 <= i < |nodes| ==> ChunkTree(nodes[i])
  }

  lemma {:induction false} FollowingChunkTrees(level: seq<Node>)
    requires AllChunkTrees(level)
    ensures AllChunkTrees(FollowingNodes(level))
    decreases |level|
  {
    if |level| >= 2 {
      FollowingChunkTrees(level[2..]);
    }
  }

  // The loop over levels computes the digest of a tree whose chunks are the pages in order.
  lemma {:induction false} RootNodeAgrees(H: Hash, level: seq<Node>)
    requires level != [] && AllChunkTrees(level)
    ensures DigestOf(H, RootNode(level)) == RootOf(H, DigestsOf(H, level))
    ensures Chunks(RootNode(level)) == AllChunks(level)
    ensures ChunkTree(RootNode(level))
    decreases |level|
  {
    if |level| == 1 {
      assert level == [level[0]] && AllChunks(level[1..]) == [];
    } else {
      FollowingDigests(H, level);
      FollowingChunks(level);
      FollowingChunkTrees(level);
      RootNodeAgrees(H, FollowingNodes(level));
    }
  }

  lemma {:induction false} ChunkNodesDigests(H: Hash, strings: seq<Bytes>)
    ensures DigestsOf(H, ChunkNodes(strings)) == Digests(H, strings)
  {
    if strings != [] {
      ChunkNodesDigests(H, strings[1..]);
      assert ChunkNodes(strings)[1..] == ChunkNodes(strings[1..]);
      assert Digests(H, strings) == [H(strings[0])] + Digests(H, strings[1..]);
    }
  }

  lemma {:induction false} ChunkNodesHold(strings: seq<Bytes>)
    ensures AllChunks(ChunkNodes(strings)) == strings
  {
    if strings != [] {
      ChunkNodesHold(strings[1..]);
      assert ChunkNodes(strings)[1..] == ChunkNodes(strings[1..]);
    }
  }

  lemma {:induction false} ChunkNodesAreChunks(strings: seq<Bytes>)
    requires forall i :: 0 <= i < |strings| ==> DOMAIN_CHUNK <= strings[i]
    ensures AllChunkTrees(ChunkNodes(strings))
  {
    if strings != [] {
      ChunkNodesAreChunks(strings[1..]);
    }
  }

  // Two different strings, one hashed on each side, with one digest.
  predicate Collision(H: Hash, a: set<Bytes>, b: set<Bytes>) {
    exists x, y :: x in a && y in b && x != y && H(x) == H(y)
  }

  lemma NoCollision(H: Hash, a: set<Bytes>, b: set<Bytes>, x: Bytes, y: Bytes)
    requires !Collision(H, a, b) && x in a && y in b && H(x) == H(y)
    ensures x == y
  {
  }

  lemma DomainsDiffer()
    ensures |DOMAIN_EMPTY| == |DOMAIN_CHUNK| == 21 && |DOMAIN_NODE| == |DOMAIN_LEAF| == 20
    ensures DOMAIN_EMPTY[15] != DOMAIN_CHUNK[15] && DOMAIN_EMPTY[15] != DOMAIN_NODE[15]
    ensures DOMAIN_CHUNK[15] != DOMAIN_NODE[15]
  {
  }

  // Equal digests come from equal trees: a page is never taken for an inner node.
  lemma {:induction false} NodeBinding(H: Hash, a: Node, b: Node, sa: set<Bytes>, sb: set<Bytes>)
    requires ChunkTree(a) && ChunkTree(b) && DigestOf(H, a) == DigestOf(H, b)
    requires Hashed(H, a) <= sa && Hashed(H, b) <= sb && !Collision(H, sa, sb)
    ensures a == b
  {
    DomainsDiffer();
    match (a, b) {
      case (Chunk(x), Chunk(y)) =>
        NoCollision(H, sa, sb, x, y);
      case (Chunk(x), Inner(l, r)) =>
        NoCollision(H, sa, sb, x, DOMAIN_NODE + DigestOf(H, l) + DigestOf(H, r));
        assert false;
      case (Inner(l, r), Chunk(y)) =>
        NoCollision(H, sa, sb, DOMAIN_NODE + DigestOf(H, l) + DigestOf(H, r), y);
        assert false;
      case (Inner(l, r), Inner(l', r')) =>
        var (dl, dr, dl', dr') := (DigestOf(H, l), DigestOf(H, r), DigestOf(H, l'), DigestOf(H, r'));
        NoCollision(H, sa, sb, DOMAIN_NODE + dl + dr, DOMAIN_NODE + dl' + dr');
        SplitConcat(DOMAIN_NODE + dl, dr, DOMAIN_NODE + dl', dr');
        SplitConcat(DOMAIN_NODE, dl, DOMAIN_NODE, dl');
        NodeBinding(H, l, l', sa, sb);
        NodeBinding(H, r, r', sa, sb);
    }
  }

  lemma {:induction false} ChunkStringsDomain(rows: seq<Row>, start: nat, pageSize: nat, index: nat)
    requires pageSize > 0 && ChunkStrings(rows, start, pageSize, index).Ok?
    ensures var strings := ChunkStrings(rows, start, pageSize, index).value;
            forall i :: 0 <= i < |strings| ==> DOMAIN_CHUNK <= strings[i]
    decreases |rows| - start
  {
    if start < |rows| {
      ChunkStringsDomain(rows, start + pageSize, pageSize, index + 1);
    }
  }

  lemma BodyDeterminesHashes(ka: nat, a: seq<Row>, kb: nat, b: seq<Row>)
    requires a != [] && b != [] && Encode(ChunkBody(ka, a)).Ok?
    requires Encode(ChunkBody(ka, a)) == Encode(ChunkBody(kb, b))
    ensures LeafHashes(a) == LeafHashes(b)
  {
    var (ba, bb) := (ChunkBody(ka, a), ChunkBody(kb, b));
    EncodeInjective(ba, bb);
    var (ha, hb) := (LeafHashes(a), LeafHashes(b));
    assert HashItems(ha) == ba.items[3].items == bb.items[3].items == HashItems(hb);
    assert forall k :: 0 <= k < |ha| ==> HashItems(ha)[k] == HashItems(hb)[k];
  }

  function From(rows: seq<Row>, start: nat): seq<Row> {
    if start < |rows| then rows[start..] else []
  }

  lemma LeafHashesByPage(rows: seq<Row>, start: nat, pageSize: nat)
    requires pageSize > 0 && start < |rows|
    ensures LeafHashes(From(rows, start))
         == LeafHashes(rows[start..PageEnd(rows, start, pageSize)]) + LeafHashes(From(rows, start + pageSize))
  {
    var end := PageEnd(rows, start, pageSize);
    LeafHashesConcat(rows[start..end], rows[end..]);
    assert rows[start..] == rows[start..end] + rows[end..];
    assert rows[end..] == From(rows, start + pageSize);
  }

  // The pages determine the leaf hashes, whatever the page sizes.
  lemma {:induction false} PagesDetermineHashes(
      a: seq<Row>, i: nat, pa: nat, ka: nat, b: seq<Row>, j: nat, pb: nat, kb: nat)
    requires pa > 0 && pb > 0 && ChunkStrings(a, i, pa, ka).Ok?
    requires ChunkStrings(a, i, pa, ka) == ChunkStrings(b, j, pb, kb)
    ensures LeafHashes(From(a, i)) == LeafHashes(From(b, j))
    decreases |a| - i
  {
    hide Encode, LeafHashes, ChunkBody;
    if i < |a| {
      assert j < |b|;
      var (ra, rb) := (a[i..PageEnd(a, i, pa)], b[j..PageEnd(b, j, pb)]);
      var (ea, eb) := (Encode(ChunkBody(ka, ra)), Encode(ChunkBody(kb, rb)));
      var (sa, sb) := (ChunkStrings(a, i, pa, ka).value, ChunkStrings(b, j, pb, kb).value);
      assert sa[0] == DOMAIN_CHUNK + ea.value && sb[0] == DOMAIN_CHUNK + eb.value;
      SplitConcat(DOMAIN_CHUNK, ea.value, DOMAIN_CHUNK, eb.value);
      BodyDeterminesHashes(ka, ra, kb, rb);
      assert sa[1..] == ChunkStrings(a, i + pa, pa, ka + 1).value;
      assert sb[1..] == ChunkStrings(b, j + pb, pb, kb + 1).value;
      PagesDetermineHashes(a, i + pa, pa, ka + 1, b, j + pb, pb, kb + 1);
      LeafHashesByPage(a, i, pa);
      LeafHashesByPage(b, j, pb);
    }
  }

  lemma LeafHashesConcat(a: seq<Row>, b: seq<Row>)
    ensures LeafHashes(a + b) == LeafHashes(a) + LeafHashes(b)
  {
    var (whole, parts) := (LeafHashes(a + b), LeafHashes(a) + LeafHashes(b));
    assert forall i :: 0 <= i < |whole| ==> whole[i] == parts[i];
  }

  // A row as the record builder makes it: its hash is that of its encoded leaf.
  predicate WellFormed(H: Hash, row: Row) {
    Encode(row.leaf).Ok? && row.leafHash == H(DOMAIN_LEAF + Encode(row.leaf).value)
  }

  function LeafStrings(H: Hash, rows: seq<Row>): set<Bytes>
    requires forall r <- rows :: WellFormed(H, r)
  {
    set r | r in rows && WellFormed(H, r) :: DOMAIN_LEAF + Encode(r.leaf).value
  }

  // Every preimage hashed on the way from the leaves to the root.
  function HashedBy(H: Hash, rows: seq<Row>, pageSize: int): set<Bytes>
    requires forall r <- rows :: WellFormed(H, r)
    requires Build(H, rows, pageSize).Ok?
  {
    if rows == [] then {DOMAIN_EMPTY}
    else
      var ordered := SortById(rows);
      ChunkCount(ordered, 0, pageSize, 0);
      LeafStrings(H, rows)
        + Hashed(H, RootNode(ChunkNodes(ChunkStrings(ordered, 0, pageSize, 0).value)))
  }

  lemma HashesDetermineLeaves(H: Hash, a: seq<Row>, b: seq<Row>, sa: set<Bytes>, sb: set<Bytes>)
    requires (forall r <- a :: WellFormed(H, r)) && (forall r <- b :: WellFormed(H, r))
    requires LeafStrings(H, a) <= sa && LeafStrings(H, b) <= sb && !Collision(H, sa, sb)
    requires LeafHashes(a) == LeafHashes(b)
    ensures Leaves(a) == Leaves(b)
  {
    assert |a| == |LeafHashes(a)| == |LeafHashes(b)| == |b|;
    forall i | 0 <= i < |a| ensures a[i].leaf == b[i].leaf {
      assert a[i].leafHash == LeafHashes(a)[i] == LeafHashes(b)[i] == b[i].leafHash;
      assert WellFormed(H, a[i]) && WellFormed(H, b[i]);
      var (x, y) := (Encode(a[i].leaf).value, Encode(b[i].leaf).value);
      assert DOMAIN_LEAF + x in LeafStrings(H, a) && DOMAIN_LEAF + y in LeafStrings(H, b);
      NoCollision(H, sa, sb, DOMAIN_LEAF + x, DOMAIN_LEAF + y);
      SplitConcat(DOMAIN_LEAF, x, DOMAIN_LEAF, y);
      EncodeInjective(a[i].leaf, b[i].leaf);
    }
  }

  // The root node of a non-empty build, and what it says about the root digest.
  lemma BuildHasNode(H: Hash, rows: seq<Row>, pageSize: int) returns (node: Node)
    requires rows != [] && Build(H, rows, pageSize).Ok?
    ensures ChunkTree(node) && DigestOf(H, node) == Build(H, rows, pageSize).value.root
    ensures ChunkStrings(SortById(rows), 0, pageSize, 0) == Ok(Chunks(node))
    ensures Chunks(node) != []
    ensures (forall r <- rows :: WellFormed(H, r)) ==>
              HashedBy(H, rows, pageSize) == LeafStrings(H, rows) + Hashed(H, node)
  {
    hide SortById, ChunkStrings, AllChunks, Encode;
    var ordered := SortById(rows);
    SortKeepsRows(rows);
    var strings := ChunkStrings(ordered, 0, pageSize, 0).value;
    ChunkCount(ordered, 0, pageSize, 0);
    ChunkStringsDomain(ordered, 0, pageSize, 0);
    ChunkNodesDigests(H, strings);
    ChunkNodesHold(strings);
    ChunkNodesAreChunks(strings);
    RootNodeAgrees(H, ChunkNodes(strings));
    node := RootNode(ChunkNodes(strings));
  }

  lemma EmptyRootIsApart(H: Hash, node: Node, s: set<Bytes>)
    requires ChunkTree(node) && Hashed(H, node) <= s && !Collision(H, {DOMAIN_EMPTY}, s)
    ensures DigestOf(H, node) != H(DOMAIN_EMPTY)
  {
    if DigestOf(H, node) == H(DOMAIN_EMPTY) {
      DomainsDiffer();
      var preimage := match node
        case Chunk(preimage) => preimage
        case Inner(l, r) => DOMAIN_NODE + DigestOf(H, l) + DigestOf(H, r);
      NoCollision(H, {DOMAIN_EMPTY}, s, DOMAIN_EMPTY, preimage);
      assert false;
    }
  }

  // One root, one leaf sequence: whatever the lengths and page sizes, two builds with the same
  // root have the same leaves in record-ID order, or two of the strings they hashed collide.
  lemma RootBindsLeaves(H: Hash, a: seq<Row>, pa: int, b: seq<Row>, pb: int)
    requires (forall r <- a :: WellFormed(H, r)) && (forall r <- b :: WellFormed(H, r))
    requires Build(H, a, pa).Ok? && Build(H, b, pb).Ok?
    requires Build(H, a, pa).value.root == Build(H, b, pb).value.root
    ensures Leaves(SortById(a)) == Leaves(SortById(b))
         || Collision(H, HashedBy(H, a, pa), HashedBy(H, b, pb))
  {
    var (sa, sb) := (HashedBy(H, a, pa), HashedBy(H, b, pb));
    if !Collision(H, sa, sb) {
      if a != [] && b != [] {
        var na := BuildHasNode(H, a, pa);
        var nb := BuildHasNode(H, b, pb);
        NodeBinding(H, na, nb, sa, sb);
        var (oa, ob) := (SortById(a), SortById(b));
        PagesDetermineHashes(oa, 0, pa, 0, ob, 0, pb, 0);
        assert From(oa, 0) == oa && From(ob, 0) == ob;
        SortKeepsRows(a);
        SortKeepsRows(b);
        HashesDetermineLeaves(H, oa, ob, sa, sb);
      } else if a == [] && b != [] {
        var nb := BuildHasNode(H, b, pb);
        EmptyRootIsApart(H, nb, sb);
      } else if a != [] {
        var na := BuildHasNode(H, a, pa);
        CollisionSymmetric(H, sa, sb);
        EmptyRootIsApart(H, na, sa);
      }
    }
  }

  lemma CollisionSymmetric(H: Hash, a: set<Bytes>, b: set<Bytes>)
    ensures Collision(H, a, b) == Collision(H, b, a)
  {
  }

  /* ---------- the builder as written ---------- */

  lemma {:induction false} FollowingSplit(H: Hash, level: seq<Digest>, index: nat)
    requires index % 2 == 0 && index < |level|
    ensures Following(H, level[index..]) ==
            (if index + 1 == |level| then [level[index]]
             else [Join(H, level[index], level[index + 1])] + Following(H, level[index + 2..]))
    ensures Created(H, level[index..]) ==
            (if index + 1 == |level| then []
             else [Join(H, level[index], level[index + 1])] + Created(H, level[index + 2..]))
  {
    if index + 1 < |level| {
      assert level[index..][2..] == level[index + 2..];
    }
  }

  method HashPages(H: Hash, ordered: seq<Row>, pageSize: nat) returns (r: Result<seq<Digest>, TreeError>)
    requires pageSize > 0
    ensures var strings := ChunkStrings(ordered, 0, pageSize, 0);
            if strings.Err? then r == Err(strings.error) else r == Ok(Digests(H, strings.value))
  {
    hide Encode, ChunkBody;
    ghost var strings := ChunkStrings(ordered, 0, pageSize, 0);
    ghost var taken: seq<Bytes> := [];
    var chunks: seq<Digest> := [];
    var start, chunkIndex := 0, 0;
    assert strings.Ok? ==> taken + strings.value == strings.value;
    while start < |ordered|
      invariant 0 <= start
      invariant chunks == Digests(H, taken)
      invariant var rest := ChunkStrings(ordered, start, pageSize, chunkIndex);
                if rest.Err? then strings == rest else strings == Ok(taken + rest.value)
      decreases |ordered| - start
    {
      ghost var rest := ChunkStrings(ordered, start, pageSize, chunkIndex);
      var body := Encode(ChunkBody(chunkIndex, ordered[start..PageEnd(ordered, start, pageSize)]));
      if body.Err? { return Err(Cbor(body.error)); }
      chunks := chunks + [H(DOMAIN_CHUNK + body.value)];
      if rest.Ok? {
        assert taken + rest.value == (taken + [rest.value[0]]) + rest.value[1..];
      }
      taken := taken + [DOMAIN_CHUNK + body.value];
      start, chunkIndex := start + pageSize, chunkIndex + 1;
    }
    assert taken + [] == taken;
    return Ok(chunks);
  }

  method NextLevel(H: Hash, level: seq<Digest>, nodes: seq<Digest>)
      returns (following: seq<Digest>, createdNodes: seq<Digest>)
    ensures following == Following(H, level)
    ensures createdNodes == nodes + Created(H, level)
  {
    following, createdNodes := [], nodes;
    var index := 0;
    assert level[0..] == level;
    while index < |level|
      invariant index % 2 == 0 && index <= |level| + 1
      invariant following + (if index < |level| then Following(H, level[index..]) else []) == Following(H, level)
      invariant createdNodes + (if index < |level| then Created(H, level[index..]) else []) == nodes + Created(H, level)
    {
      FollowingSplit(H, level, index);
      if index + 1 == |level| {
        following := following + [level[index]];
      } else {
        var node := H(DOMAIN_NODE + level[index] + level[index + 1]);
        following := following + [node];
        createdNodes := createdNodes + [node];
      }
      index := index + 2;
    }
  }

  method BuildTree(H: Hash, records: seq<Row>, pageSize: int) returns (r: Result<Tree, TreeError>)
    ensures r == Build(H, records, pageSize)
  {
    hide ChunkStrings, Following, Created, SortById, LeafHashes;
    if records == [] {
      return Ok(Tree(H(DOMAIN_EMPTY), [], []));
    }
    var ordered := SortById(records);
    SortKeepsRows(records);
    if pageSize == 0 { return Err(ZeroPageSize); }
    if pageSize < 0 { return Err(NoChunks); }
    var pages := HashPages(H, ordered, pageSize);
    if pages.Err? { return Err(pages.error); }
    var chunks := pages.value;
    ChunkCount(ordered, 0, pageSize, 0);
    var createdNodes: seq<Digest> := [];
    var level := chunks;
    while |level| > 1
      invariant level != [] && RootOf(H, level) == RootOf(H, chunks)
      invariant createdNodes + InnerNodes(H, level) == InnerNodes(H, chunks)
      decreases |level|
    {
      level, createdNodes := NextLevel(H, level, createdNodes);
    }
    assert InnerNodes(H, level) == [] && createdNodes == InnerNodes(H, chunks);
    assert ChunkStrings(ordered, 0, pageSize, 0).Ok?;
    return Ok(Tree(level[0], LeafHashes(ordered), chunks + createdNodes));
  }
}
