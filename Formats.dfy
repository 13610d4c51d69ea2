/** Word-level layouts of the index: the saved index file, the k-NN input
    file, and the packed per-node buffer that search reads. A word is a
    little-endian unsigned 32-bit value; streams are modelled as sequences of
    whole words. */
module Formats {
  import opened Pool
  import opened Graphs

  const WordLimit: nat := 0x1_0000_0000

  type Word = x: nat | x < 0x1_0000_0000

  /** Every id and every list length can be written as one word. */
  predicate FitsWords(g: seq<seq<nat>>) {
    forall i :: 0 <= i < |g| ==> |g[i]| < WordLimit && forall j :: 0 <= j < |g[i]| ==> g[i][j] < WordLimit
  }

  function Zeros(n: nat): (r: seq<Word>)
    ensures |r| == n && forall i :: 0 <= i < n ==> r[i] == 0
  {
    seq(n, i => 0)
  }

  // ---------------------------------------------------------------------------
  // Index file: width, n_ep, the entry points, then per node its degree and ids.

  /** The per-node part of the index file. */
  function EncodeLists(g: seq<seq<nat>>): seq<Word>
    requires FitsWords(g)
  {
    if g == [] then []
    else
      assert FitsWords(g[1..]) by {
        forall i | 0 <= i < |g[1..]| ensures |g[1..][i]| < WordLimit {
          assert g[1..][i] == g[i + 1];
        }
      }
      [|g[0]| as Word] + g[0] + EncodeLists(g[1..])
  }

  /** Encoding one more list appends its record: degree word, then ids. */
  lemma {:induction false} EncodeListsSnoc(g: seq<seq<nat>>, x: seq<nat>)
    requires FitsWords(g + [x])
    ensures FitsWords(g)
    ensures EncodeLists(g + [x]) == EncodeLists(g) + [|x|] + x
  {
    assert FitsWords(g) by {
      forall i | 0 <= i < |g|
        ensures |g[i]| < WordLimit && forall j :: 0 <= j < |g[i]| ==> g[i][j] < WordLimit
      {
        assert g[i] == (g + [x])[i];
      }
    }
    if g != [] {
      assert (g + [x])[1..] == g[1..] + [x];
      assert (g + [x])[0] == g[0];
      EncodeListsSnoc(g[1..], x);
    }
  }

  /** The file Save writes. */
  function EncodeIndex(width: Word, eps: seq<Word>, g: seq<seq<nat>>): seq<Word>
    requires |eps| < WordLimit && FitsWords(g)
  {
    [width, |eps| as Word] + eps + EncodeLists(g)
  }

  /** The lists the record loop of Load reads: a degree word k, then k ids. A
      record cut short by the end of the stream is still kept, filled up with
      zero ids (the vector is zero-initialised before the short read). */
  function DecodeLists(words: seq<Word>): seq<seq<nat>>
    decreases |words|
  {
    if words == [] then []
    else
      var k := words[0];
      var rest := words[1..];
      if k <= |rest| then [rest[..k]] + DecodeLists(rest[k..])
      else [rest + Zeros(k - |rest|)]
  }

  /** One step of the record loop at word pos: a whole record, or a short
      last one. */
  lemma DecodeListsAt(words: seq<Word>, pos: nat)
    requires pos < |words|
    ensures var k := words[pos] as nat;
            if pos + 1 + k <= |words|
            then DecodeLists(words[pos..]) == [words[pos + 1 .. pos + 1 + k]] + DecodeLists(words[pos + 1 + k..])
            else DecodeLists(words[pos..]) == [words[pos + 1..] + Zeros(k - (|words| - pos - 1))]
  {
    var k := words[pos] as nat;
    var rest := words[pos..][1..];
    assert rest == words[pos + 1..];
    if pos + 1 + k <= |words| {
      assert rest[..k] == words[pos + 1 .. pos + 1 + k];
      assert rest[k..] == words[pos + 1 + k..];
    }
  }

  /** The three things Load restores from a stream whose header is complete. */
  datatype LoadedIndex = LoadedIndex(width: nat, eps: seq<nat>, lists: seq<seq<nat>>)

  function DecodeIndex(words: seq<Word>): LoadedIndex
    requires |words| >= 2 && |words| >= 2 + words[1] as int
  {
    LoadedIndex(words[0], words[2..2 + words[1]], DecodeLists(words[2 + words[1]..]))
  }

  /** True when the stream holds width, n_ep and all n_ep entry points. */
  predicate HeaderComplete(words: seq<Word>) {
    |words| >= 2 && |words| >= 2 + words[1] as int
  }

  /** std::vector::resize: keeps the first n entries and zero-fills the rest. */
  function Resized(s: seq<nat>, n: nat): (r: seq<nat>)
    ensures |r| == n
    ensures forall i :: 0 <= i < n ==> r[i] == if i < |s| then s[i] else 0
  {
    if |s| >= n then s[..n] else s + Zeros(n - |s|)
  }

  /** What Load makes of a stream of words, given the width and entry points
      held before: each header field the stream ends before keeps what it
      held (the count n_ep reads as 0), eps_ is resized to n_ep and then
      overwritten by as many entry points as the stream holds, and records
      are read only after a complete header; a complete header decodes as
      DecodeIndex says. */
  function LoadIndex(width0: nat, eps0: seq<nat>, words: seq<Word>): (r: LoadedIndex)
    ensures HeaderComplete(words) ==> r == DecodeIndex(words)
    ensures r.width == if |words| >= 1 then words[0] else width0
    ensures |r.eps| == if |words| >= 2 then words[1] else 0
    ensures forall i :: 0 <= i < |r.eps| ==>
              r.eps[i] == if 2 + i < |words| then words[2 + i] else if i < |eps0| then eps0[i] else 0
    ensures !HeaderComplete(words) ==> r.lists == []
  {
    if HeaderComplete(words) then DecodeIndex(words)
    else if |words| < 2 then LoadedIndex(if |words| == 1 then words[0] else width0, [], [])
    else
      var got := |words| - 2;
      var resized := Resized(eps0, words[1]);
      LoadedIndex(words[0], words[2..] + resized[got..], [])
  }

  /** Reading back the per-node part gives the lists that were written. */
  lemma {:induction false} ListsRoundTrip(g: seq<seq<nat>>)
    requires FitsWords(g)
    ensures DecodeLists(EncodeLists(g)) == g
  {
    if g != [] {
      assert FitsWords(g[1..]) by {
        forall i | 0 <= i < |g[1..]| ensures |g[1..][i]| < WordLimit {
          assert g[1..][i] == g[i + 1];
        }
      }
      var e := EncodeLists(g);
      var rest := e[1..];
      assert rest == g[0] + EncodeLists(g[1..]);
      assert rest[..|g[0]|] == g[0];
      assert rest[|g[0]|..] == EncodeLists(g[1..]);
      ListsRoundTrip(g[1..]);
      assert g == [g[0]] + g[1..];
    }
  }

  /** Load applied to what Save wrote restores the width, the entry points in
      order and every node's list in order. */
  lemma SaveLoadRoundTrip(width: Word, eps: seq<Word>, g: seq<seq<nat>>)
    requires |eps| < WordLimit && FitsWords(g)
    ensures var w := EncodeIndex(width, eps, g);
            |w| >= 2 && |w| >= 2 + w[1] as int && DecodeIndex(w) == LoadedIndex(width, eps, g)
  {
    var w := EncodeIndex(width, eps, g);
    assert w[2..2 + |eps|] == eps;
    assert w[2 + |eps|..] == EncodeLists(g);
    ListsRoundTrip(g);
  }

  // ---------------------------------------------------------------------------
  // Offsets of fixed-size records: record i of size `size` starts at
  // Offset(i, size), which equals i * size (OffsetProduct).

  function Offset(i: nat, size: nat): nat {
    if i == 0 then 0 else Offset(i - 1, size) + size
  }

  /** How many whole records of `size` words fit in w words. */
  function WholeRecords(w: nat, size: nat): nat
    requires size >= 1
    decreases w
  {
    if w < size then 0 else 1 + WholeRecords(w - size, size)
  }

  lemma {:induction false} OffsetProduct(i: nat, size: nat)
    ensures Offset(i, size) == i * size
  {
    if i > 0 {
      OffsetProduct(i - 1, size);
      assert i * size == (i - 1) * size + size;
    }
  }

  /** A record that fits ends inside the buffer. */
  lemma {:induction false} RecordFits(i: nat, size: nat, w: nat)
    requires size >= 1 && i < WholeRecords(w, size)
    ensures Offset(i, size) + size <= w
    decreases w
  {
    if i > 0 {
      RecordFits(i - 1, size, w - size);
    }
  }

  /** Records at different indices do not overlap. */
  lemma {:induction false} RecordsDisjoint(i: nat, j: nat, size: nat)
    requires i < j
    ensures Offset(i, size) + size <= Offset(j, size)
  {
    if i + 1 < j {
      RecordsDisjoint(i, j - 1, size);
    }
  }

  lemma {:induction false} WholeRecordsBounds(w: nat, size: nat)
    requires size >= 1
    ensures Offset(WholeRecords(w, size), size) <= w < Offset(WholeRecords(w, size), size) + size
    decreases w
  {
    if w >= size {
      WholeRecordsBounds(w - size, size);
      OffsetShift(WholeRecords(w - size, size), size);
    }
  }

  lemma {:induction false} OffsetShift(i: nat, size: nat)
    ensures Offset(i + 1, size) == size + Offset(i, size)
  {
    if i > 0 {
      OffsetShift(i - 1, size);
    }
  }

  /** n records of `size` words make WholeRecords count exactly n. */
  lemma {:induction false} WholeRecordsOfOffset(n: nat, size: nat)
    requires size >= 1
    ensures WholeRecords(Offset(n, size), size) == n
  {
    if n > 0 {
      WholeRecordsOfOffset(n - 1, size);
      OffsetShift(n - 1, size);
      assert Offset(n, size) - size == Offset(n - 1, size);
    }
  }

  lemma DivMod(x: nat, s: nat)
    requires s >= 1
    ensures x == (x / s) * s + x % s && 0 <= x % s < s
  {}

  lemma MulSucc(a: nat, s: nat)
    ensures (a + 1) * s == a * s + s
  {}

  lemma {:induction false} MulMonotone(a: nat, b: nat, s: nat)
    requires a <= b
    ensures a * s <= b * s
    decreases b - a
  {
    if a < b {
      MulMonotone(a, b - 1, s);
      MulSucc(b - 1, s);
    }
  }

  /** The quotient is the only q with q * s <= x < q * s + s. */
  lemma DivUnique(x: nat, s: nat, q: nat)
    requires s >= 1 && q * s <= x < q * s + s
    ensures x / s == q
  {
    var d := x / s;
    DivMod(x, s);
    if d < q {
      MulMonotone(d + 1, q, s);
      MulSucc(d, s);
    } else if d > q {
      MulMonotone(q + 1, d, s);
      MulSucc(q, s);
    }
  }

  /** Integer division counts whole records. */
  lemma WholeRecordsQuotient(w: nat, size: nat)
    requires size >= 1
    ensures WholeRecords(w, size) == w / size
  {
    var n := WholeRecords(w, size);
    WholeRecordsBounds(w, size);
    OffsetProduct(n, size);
    DivUnique(w, size, n);
  }

  lemma MulFour(n: nat, s: nat)
    ensures (4 * n) * s == 4 * (n * s)
  {}

  /** Dividing a byte count by s and then by 4 is dividing the word count by s. */
  lemma BytesThenWords(w: nat, s: nat)
    requires s >= 1
    ensures (4 * w) / s / 4 == w / s
  {
    var n := w / s;
    var q := (4 * w) / s;
    DivMod(w, s);
    DivMod(4 * w, s);
    MulFour(n, s);
    MulFour(n + 1, s);
    MulSucc(n, s);
    if q < 4 * n {
      MulMonotone(q + 1, 4 * n, s);
      MulSucc(q, s);
    }
    if q >= 4 * n + 4 {
      MulMonotone(4 * n + 4, q, s);
    }
    DivUnique(q, 4, n);
  }

  // ---------------------------------------------------------------------------
  // k-NN input file: records of one ignored word followed by k ids; the first
  // word of the file is k, and the record count is inferred from the size.

  /** k is read from the first word and the divisor k + 1 is computed in
      32 bits, so k must not be the largest word. */
  predicate KnnHeaderOk(words: seq<Word>) {
    words == [] || words[0] + 1 < WordLimit
  }

  /** (file bytes / (k + 1)) / 4, the source's record count. */
  function KnnCount(words: seq<Word>): nat
    requires KnnHeaderOk(words)
  {
    if words == [] then 0 else (4 * |words|) / (words[0] + 1) / 4
  }

  /** The source's count is the number of whole records in the file. */
  lemma KnnCountWhole(words: seq<Word>)
    requires KnnHeaderOk(words) && words != []
    ensures KnnCount(words) == WholeRecords(|words|, words[0] as nat + 1)
  {
    BytesThenWords(|words|, words[0] as nat + 1);
    WholeRecordsQuotient(|words|, words[0] as nat + 1);
  }

  /** Record i of a k-NN file: the k words after its leading word. */
  function KnnRecord(words: seq<Word>, i: nat): (r: seq<nat>)
    requires words != [] && i < WholeRecords(|words|, words[0] as nat + 1)
    ensures |r| == words[0]
  {
    var o := Offset(i, words[0] as nat + 1);
    RecordFits(i, words[0] as nat + 1, |words|);
    words[o + 1 .. o + words[0] + 1]
  }

  /** The adjacency lists Load_nn_graph builds: KnnCount lists, list i the k
      ids of record i. */
  function DecodeKnn(words: seq<Word>): (g: seq<seq<nat>>)
    requires KnnHeaderOk(words)
    ensures |g| == KnnCount(words)
    ensures words != [] ==> forall i :: 0 <= i < |g| ==> |g[i]| == words[0]
  {
    if words == [] then []
    else
      KnnCountWhole(words);
      seq(KnnCount(words), i requires 0 <= i < KnnCount(words) => KnnRecord(words, i))
  }

  /** A k-NN file holding the given lists, each record led by the word k. */
  function EncodeKnn(k: Word, g: seq<seq<nat>>): seq<Word>
    requires FitsWords(g)
  {
    if g == [] then []
    else
      assert FitsWords(g[1..]) by {
        forall i | 0 <= i < |g[1..]| ensures |g[1..][i]| < WordLimit {
          assert g[1..][i] == g[i + 1];
        }
      }
      [k] + g[0] + EncodeKnn(k, g[1..])
  }

  /** Every list of k ids takes k + 1 words with its leading word. */
  lemma {:induction false} EncodeKnnLength(k: Word, g: seq<seq<nat>>)
    requires FitsWords(g) && forall j :: 0 <= j < |g| ==> |g[j]| == k
    ensures |EncodeKnn(k, g)| == Offset(|g|, k + 1)
  {
    if g != [] {
      assert FitsWords(g[1..]) by {
        forall j | 0 <= j < |g[1..]| ensures |g[1..][j]| < WordLimit {
          assert g[1..][j] == g[j + 1];
        }
      }
      EncodeKnnLength(k, g[1..]);
      OffsetShift(|g| - 1, k + 1);
    }
  }

  /** A k-NN file of lists g starts with g[0]'s record. */
  lemma EncodeKnnCons(k: Word, g: seq<seq<nat>>)
    requires FitsWords(g) && g != []
    ensures FitsWords(g[1..])
    ensures EncodeKnn(k, g) == ([k] + g[0]) + EncodeKnn(k, g[1..])
  {
    assert FitsWords(g[1..]) by {
      forall j | 0 <= j < |g[1..]| ensures |g[1..][j]| < WordLimit {
        assert g[1..][j] == g[j + 1];
      }
    }
  }

  /** Record i of the encoding starts at Offset(i, k + 1) with the word k and
      holds list i. */
  lemma {:induction false} EncodeKnnLayout(k: Word, g: seq<seq<nat>>, i: nat)
    requires FitsWords(g) && forall j :: 0 <= j < |g| ==> |g[j]| == k
    requires i < |g|
    ensures |EncodeKnn(k, g)| == Offset(|g|, k + 1)
    ensures Offset(i, k + 1) + k + 1 <= |EncodeKnn(k, g)|
    ensures EncodeKnn(k, g)[Offset(i, k + 1)] == k
    ensures EncodeKnn(k, g)[Offset(i, k + 1) + 1 .. Offset(i, k + 1) + k + 1] == g[i]
  {
    EncodeKnnCons(k, g);
    EncodeKnnLength(k, g);
    var s: nat := k + 1;
    var head: seq<Word> := [k] + g[0];
    var tail := EncodeKnn(k, g[1..]);
    if i == 0 {
      SliceOfAppend(head, tail, 1, s);
      assert head[1..s] == g[0];
    } else {
      EncodeKnnLayout(k, g[1..], i - 1);
      OffsetShift(i - 1, s);
      ShiftedRecord(head, tail, Offset(i - 1, s), s);
    }
  }

  /** A record of tail after head sits |head| words further on. */
  lemma ShiftedRecord<T>(head: seq<T>, tail: seq<T>, o: nat, s: nat)
    requires 1 <= s && o + s <= |tail|
    ensures (head + tail)[|head| + o] == tail[o]
    ensures (head + tail)[|head| + o + 1 .. |head| + o + s] == tail[o + 1 .. o + s]
  {
    SliceOfAppendRight(head, tail, |head| + o + 1, |head| + o + s);
  }

  /** Load_nn_graph applied to a k-NN file yields its lists: one per record,
      each of exactly k ids, the leading word of each record skipped. */
  lemma KnnRoundTrip(k: Word, g: seq<seq<nat>>)
    requires k + 1 < WordLimit
    requires FitsWords(g) && forall j :: 0 <= j < |g| ==> |g[j]| == k
    ensures KnnHeaderOk(EncodeKnn(k, g))
    ensures DecodeKnn(EncodeKnn(k, g)) == g
  {
    var e := EncodeKnn(k, g);
    if g != [] {
      KnnCountOf(k, g);
      var d := DecodeKnn(e);
      forall i | 0 <= i < |g| ensures d[i] == g[i] {
        KnnRecordOf(k, g, i);
      }
    }
  }

  /** A non-empty k-NN file of lists g starts with k and holds |g| records. */
  lemma KnnCountOf(k: Word, g: seq<seq<nat>>)
    requires k + 1 < WordLimit && g != []
    requires FitsWords(g) && forall j :: 0 <= j < |g| ==> |g[j]| == k
    ensures var e := EncodeKnn(k, g);
            e != [] && e[0] == k && KnnHeaderOk(e) && KnnCount(e) == |g| == WholeRecords(|e|, k + 1)
  {
    var e := EncodeKnn(k, g);
    EncodeKnnLayout(k, g, 0);
    KnnCountWhole(e);
    WholeRecordsOfOffset(|g|, k + 1);
  }

  /** Record i of a k-NN file of lists g decodes to g[i]. */
  lemma KnnRecordOf(k: Word, g: seq<seq<nat>>, i: nat)
    requires k + 1 < WordLimit && i < |g|
    requires FitsWords(g) && forall j :: 0 <= j < |g| ==> |g[j]| == k
    requires EncodeKnn(k, g) != [] && EncodeKnn(k, g)[0] == k && i < WholeRecords(|EncodeKnn(k, g)|, k + 1)
    ensures KnnRecord(EncodeKnn(k, g), i) == g[i]
  {
    EncodeKnnLayout(k, g, i);
  }

  // ---------------------------------------------------------------------------
  // Packed graph: node n occupies NodeWords words from Offset(n, NodeWords):
  // its norm and vector (dim + 1 words), its degree, then width id slots.

  function DataWords(dim: nat): nat { dim + 1 }

  function NodeWords(dim: nat, width: nat): nat { (dim + 1) + (width + 1) }

  /** data_len and node_size of the source, in bytes. */
  function DataLenBytes(dim: nat): nat { (dim + 1) * 4 }

  function NodeSizeBytes(dim: nat, width: nat): nat { (dim + 1) * 4 + (width + 1) * 4 }

  /** Where search finds node n's degree word. */
  function DegreeIndex(n: nat, dim: nat, width: nat): nat {
    Offset(n, NodeWords(dim, width)) + DataWords(dim)
  }

  /** The byte offset node_size * n + data_len the search dereferences for
      node n's degree is four times the degree's word index. */
  lemma DegreeOffsetInBytes(n: nat, dim: nat, width: nat)
    ensures n * NodeSizeBytes(dim, width) + DataLenBytes(dim) == 4 * DegreeIndex(n, dim, width)
  {
    var s := NodeWords(dim, width);
    OffsetProduct(n, s);
    assert NodeSizeBytes(dim, width) == 4 * s;
    assert n * (4 * s) == 4 * (n * s);
  }

  /** One node's block: vector words, degree, ids, unused slots (zero here;
      indeterminate in the source's uninitialised buffer). */
  function PackNode(vec: seq<Word>, nbrs: seq<nat>, dim: nat, width: nat): (b: seq<Word>)
    requires |vec| == dim + 1 && |nbrs| <= width < WordLimit
    requires forall j :: 0 <= j < |nbrs| ==> nbrs[j] < WordLimit
    ensures |b| == NodeWords(dim, width)
  {
    vec + [|nbrs| as Word] + nbrs + Zeros(width - |nbrs|)
  }

  predicate PackInput(vecs: seq<seq<Word>>, g: seq<seq<nat>>, dim: nat, width: nat) {
    && |vecs| == |g|
    && width < WordLimit
    && (forall i :: 0 <= i < |vecs| ==> |vecs[i]| == dim + 1)
    && (forall i :: 0 <= i < |g| ==> |g[i]| <= width)
    && FitsWords(g)
  }

  /** The whole packed buffer: the node blocks in id order. */
  function Pack(vecs: seq<seq<Word>>, g: seq<seq<nat>>, dim: nat, width: nat): (b: seq<Word>)
    requires PackInput(vecs, g, dim, width)
    ensures |b| == Offset(|g|, NodeWords(dim, width))
  {
    if g == [] then []
    else
      var m := |g| - 1;
      PackInputPrefix(vecs, g, dim, width, m);
      OffsetShift(m, NodeWords(dim, width));
      Pack(vecs[..m], g[..m], dim, width) + PackNode(vecs[m], g[m], dim, width)
  }

  lemma PackInputPrefix(vecs: seq<seq<Word>>, g: seq<seq<nat>>, dim: nat, width: nat, m: nat)
    requires PackInput(vecs, g, dim, width) && m <= |g|
    ensures PackInput(vecs[..m], g[..m], dim, width)
  {
    forall j | 0 <= j < m ensures |g[..m][j]| <= width && |vecs[..m][j]| == dim + 1 && |g[..m][j]| < WordLimit {
      assert g[..m][j] == g[j] && vecs[..m][j] == vecs[j];
    }
  }

  /** Packing one more node appends its block. */
  lemma PackPrefix(vecs: seq<seq<Word>>, g: seq<seq<nat>>, dim: nat, width: nat, i: nat)
    requires PackInput(vecs, g, dim, width) && i < |g|
    ensures PackInput(vecs[..i], g[..i], dim, width) && PackInput(vecs[..i + 1], g[..i + 1], dim, width)
    ensures Pack(vecs[..i + 1], g[..i + 1], dim, width)
            == Pack(vecs[..i], g[..i], dim, width) + PackNode(vecs[i], g[i], dim, width)
  {
    PackInputPrefix(vecs, g, dim, width, i);
    PackInputPrefix(vecs, g, dim, width, i + 1);
    assert vecs[..i + 1][..i] == vecs[..i] && g[..i + 1][..i] == g[..i];
  }

  /** Node n's block sits at Offset(n, NodeWords) in the packed buffer. */
  lemma {:induction false} PackBlock(vecs: seq<seq<Word>>, g: seq<seq<nat>>, dim: nat, width: nat, n: nat)
    requires PackInput(vecs, g, dim, width) && n < |g|
    ensures Offset(n, NodeWords(dim, width)) + NodeWords(dim, width) <= |Pack(vecs, g, dim, width)|
    ensures Pack(vecs, g, dim, width)[Offset(n, NodeWords(dim, width)) .. Offset(n, NodeWords(dim, width)) + NodeWords(dim, width)]
            == PackNode(vecs[n], g[n], dim, width)
    decreases |g|
  {
    var m := |g| - 1;
    PackInputPrefix(vecs, g, dim, width, m);
    var init := Pack(vecs[..m], g[..m], dim, width);
    var last := PackNode(vecs[m], g[m], dim, width);
    assert Pack(vecs, g, dim, width) == init + last;
    if n < m {
      PackBlock(vecs[..m], g[..m], dim, width, n);
      assert vecs[..m][n] == vecs[n] && g[..m][n] == g[n];
      BlockBeforeLast(init, last, n, m, NodeWords(dim, width), PackNode(vecs[n], g[n], dim, width));
    } else {
      BlockAtLast(init, last);
    }
  }

  /** A block before the appended one is where it was. */
  lemma BlockBeforeLast(init: seq<Word>, last: seq<Word>, n: nat, m: nat, s: nat, blk: seq<Word>)
    requires n < m && |init| == Offset(m, s)
    requires Offset(n, s) + s <= |init| && init[Offset(n, s) .. Offset(n, s) + s] == blk
    ensures Offset(n, s) + s <= |init + last| && (init + last)[Offset(n, s) .. Offset(n, s) + s] == blk
  {
    SliceOfAppend(init, last, Offset(n, s), Offset(n, s) + s);
  }

  /** The appended block sits right after the others. */
  lemma BlockAtLast(init: seq<Word>, last: seq<Word>)
    ensures (init + last)[|init| .. |init| + |last|] == last
  {
    SliceOfAppendRight(init, last, |init|, |init| + |last|);
    assert last[0..|last|] == last;
  }

  predicate NodeRegionFits(buf: seq<Word>, n: nat, dim: nat, width: nat) {
    Offset(n, NodeWords(dim, width)) + NodeWords(dim, width) <= |buf|
  }

  /** The neighbour ids search reads for node n: the degree word, then that
      many ids right after it. */
  function NeighborsAt(buf: seq<Word>, n: nat, dim: nat, width: nat): seq<nat>
    requires NodeRegionFits(buf, n, dim, width)
    requires buf[DegreeIndex(n, dim, width)] <= width
  {
    var d := DegreeIndex(n, dim, width);
    buf[d + 1 .. d + 1 + buf[d]]
  }

  /** A buffer of nd packed nodes whose degrees fit their slots and whose ids
      name nodes below nd. */
  predicate PackedGraphOk(buf: seq<Word>, nd: nat, dim: nat, width: nat) {
    && |buf| == Offset(nd, NodeWords(dim, width))
    && forall n :: 0 <= n < nd ==>
         && NodeRegionFits(buf, n, dim, width)
         && buf[DegreeIndex(n, dim, width)] <= width
         && forall x :: x in NeighborsAt(buf, n, dim, width) ==> x < nd
  }

  /** Reading node n back from the packed buffer gives its vector words, its
      degree at data_len and its ids in order. */
  lemma PackedReadBack(vecs: seq<seq<Word>>, g: seq<seq<nat>>, dim: nat, width: nat, n: nat)
    requires PackInput(vecs, g, dim, width) && n < |g|
    ensures var b := Pack(vecs, g, dim, width);
            && NodeRegionFits(b, n, dim, width)
            && b[Offset(n, NodeWords(dim, width)) .. Offset(n, NodeWords(dim, width)) + DataWords(dim)] == vecs[n]
            && b[DegreeIndex(n, dim, width)] == |g[n]|
            && NeighborsAt(b, n, dim, width) == g[n]
  {
    PackBlock(vecs, g, dim, width, n);
    BlockReadBack(Pack(vecs, g, dim, width), vecs[n], g[n], n, dim, width);
  }

  /** Reading node n back from any buffer that holds node n's block at its
      offset. */
  lemma BlockReadBack(b: seq<Word>, vec: seq<Word>, nbrs: seq<nat>, n: nat, dim: nat, width: nat)
    requires |vec| == dim + 1 && |nbrs| <= width < WordLimit
    requires forall j :: 0 <= j < |nbrs| ==> nbrs[j] < WordLimit
    requires Offset(n, NodeWords(dim, width)) + NodeWords(dim, width) <= |b|
    requires b[Offset(n, NodeWords(dim, width)) .. Offset(n, NodeWords(dim, width)) + NodeWords(dim, width)]
             == PackNode(vec, nbrs, dim, width)
    ensures && NodeRegionFits(b, n, dim, width)
            && b[Offset(n, NodeWords(dim, width)) .. Offset(n, NodeWords(dim, width)) + DataWords(dim)] == vec
            && b[DegreeIndex(n, dim, width)] == |nbrs|
            && NeighborsAt(b, n, dim, width) == nbrs
  {
    var s := NodeWords(dim, width);
    var blk := PackNode(vec, nbrs, dim, width);
    var o := Offset(n, s);
    PackNodeParts(vec, nbrs, dim, width);
    SliceOfSlice(b, o, o + s, 0, dim + 1);
    SliceOfSlice(b, o, o + s, dim + 2, dim + 2 + |nbrs|);
    var d := DegreeIndex(n, dim, width);
    assert d == o + dim + 1;
    assert b[d] == b[o .. o + s][dim + 1] == |nbrs|;
    assert NeighborsAt(b, n, dim, width) == b[o + dim + 2 .. o + dim + 2 + |nbrs|];
  }

  /** The parts of one node's block. */
  lemma PackNodeParts(vec: seq<Word>, nbrs: seq<nat>, dim: nat, width: nat)
    requires |vec| == dim + 1 && |nbrs| <= width < WordLimit
    requires forall j :: 0 <= j < |nbrs| ==> nbrs[j] < WordLimit
    ensures var b := PackNode(vec, nbrs, dim, width);
            b[..dim + 1] == vec && b[dim + 1] == |nbrs| && b[dim + 2 .. dim + 2 + |nbrs|] == nbrs
  {
  }

  lemma SliceOfAppend<T>(a: seq<T>, c: seq<T>, lo: nat, hi: nat)
    requires lo <= hi <= |a|
    ensures (a + c)[lo..hi] == a[lo..hi]
  {
    forall k | 0 <= k < hi - lo ensures (a + c)[lo..hi][k] == a[lo..hi][k] {
      assert (a + c)[lo..hi][k] == (a + c)[lo + k] == a[lo + k];
    }
  }

  lemma SliceOfAppendRight<T>(a: seq<T>, c: seq<T>, lo: nat, hi: nat)
    requires |a| <= lo <= hi <= |a| + |c|
    ensures (a + c)[lo..hi] == c[lo - |a| .. hi - |a|]
  {
    forall k | 0 <= k < hi - lo ensures (a + c)[lo..hi][k] == c[lo - |a| .. hi - |a|][k] {
      assert (a + c)[lo..hi][k] == (a + c)[lo + k] == c[lo + k - |a|];
    }
  }

  lemma SliceOfSlice(b: seq<Word>, lo: nat, hi: nat, i: nat, j: nat)
    requires lo <= hi <= |b| && i <= j <= hi - lo
    ensures b[lo..hi][i..j] == b[lo + i .. lo + j]
  {
    forall k | 0 <= k < j - i ensures b[lo..hi][i..j][k] == b[lo + i .. lo + j][k] {
      assert b[lo..hi][i..j][k] == b[lo..hi][i + k] == b[lo + i + k];
    }
  }

  /** Packing a valid graph yields a valid packed graph over the same nodes. */
  lemma PackedGraphValid(vecs: seq<seq<Word>>, g: seq<seq<nat>>, dim: nat, width: nat)
    requires PackInput(vecs, g, dim, width) && ValidGraph(g, |g|)
    ensures PackedGraphOk(Pack(vecs, g, dim, width), |g|, dim, width)
  {
    var b := Pack(vecs, g, dim, width);
    forall n | 0 <= n < |g|
      ensures NodeRegionFits(b, n, dim, width)
      ensures b[DegreeIndex(n, dim, width)] <= width
      ensures forall x :: x in NeighborsAt(b, n, dim, width) ==> x < |g|
    {
      PackedReadBack(vecs, g, dim, width, n);
    }
  }
}
