/** Byte marshalling of values for the store. A trivially copyable value of a type of
    size `w` is its `w`-byte object representation (its layout is not modelled); a
    string is its characters; a vector is its elements' bytes one after the other;
    a map is its key and value bytes, pair after pair, in the map's iteration order. */
module Serialization {
  import opened Wrappers
  import opened Bytes

  // ---------------------------------------------------------------------------
  // Arithmetic on chunk offsets

  lemma MulStep(c: nat, n: nat)
    ensures (c + 1) * n == c * n + n
  {
  }

  /** A chunk before chunk `c` ends no later than chunk `c` starts. */
  lemma MulMono(i: nat, c: nat, n: nat)
    requires i < c
    ensures (i + 1) * n <= c * n
  {
    var d := c - (i + 1);
    assert c * n == (i + 1) * n + d * n;
  }

  /** Dividing a multiple of `n` by `n`. */
  lemma MulDiv(c: nat, n: nat)
    requires n > 0
    ensures (c * n) % n == 0 && (c * n) / n == c
  {
    ModUnique(c * n, n, c, 0);
    var q := (c * n) / n;
    assert n * q == n * c;
    MulAwayFromZero(n, q - c);
  }

  /** A length divisible by `n` is `n` times its quotient. */
  lemma DivMul(len: nat, n: nat)
    requires n > 0 && len % n == 0
    ensures (len / n) * n == len
  {
  }

  // ---------------------------------------------------------------------------
  // The messages of the std::runtime_error each deserializer throws

  const VALUE_SIZE_MESSAGE := "deserialize_struct(): byte vector size is not equal to type size"
  const VECTOR_SIZE_MESSAGE := "deserialize_vector(): byte vector not divisible by type size"
  const MAP_SIZE_MESSAGE := "deserialize_map(): byte vector size not divisible by key+value size"

  // ---------------------------------------------------------------------------
  // Fixed-size values

  /** serialize<Type>: the object's `size` bytes, copied. */
  function SerializeValue(obj: Bytes, size: nat): (r: Bytes)
    requires |obj| == size
    ensures |r| == size
  {
    obj
  }

  /** deserialize<Type>: fails unless there are exactly `size` bytes. */
  function DeserializeValue(b: Bytes, size: nat): (r: Result<Bytes>)
    ensures r.Success? <==> |b| == size
    ensures r.Success? ==> |r.value| == size
  {
    if |b| != size then Failure(RuntimeError(VALUE_SIZE_MESSAGE))
    else Success(b)
  }

  /** Deserializing a serialized value gives it back. */
  lemma ValueRoundTrip(obj: Bytes, size: nat)
    requires |obj| == size
    ensures DeserializeValue(SerializeValue(obj, size), size) == Success(obj)
  {
  }

  /** A value deserialized from bytes serializes to those bytes. */
  lemma ValueRoundTripBack(b: Bytes, size: nat)
    requires DeserializeValue(b, size).Success?
    ensures SerializeValue(DeserializeValue(b, size).value, size) == b
  {
  }

  // ---------------------------------------------------------------------------
  // Strings

  /** serialize<std::string>: the characters. */
  function SerializeString(s: Bytes): (r: Bytes)
    ensures |r| == |s|
  {
    s
  }

  /** deserialize<std::string>: the empty string for no bytes, otherwise the bytes. */
  function DeserializeString(b: Bytes): (r: Bytes)
    ensures b == [] ==> r == []
  {
    if b == [] then [] else b
  }

  lemma StringRoundTrip(s: Bytes)
    ensures DeserializeString(SerializeString(s)) == s
    ensures SerializeString(DeserializeString(s)) == s
  {
  }

  // ---------------------------------------------------------------------------
  // Vectors

  predicate AllSized(es: seq<Bytes>, w: nat)
  {
    forall i :: 0 <= i < |es| ==> |es[i]| == w
  }

  /** serialize<std::vector<Type>>: the elements' bytes in order. */
  function SerializeVector(es: seq<Bytes>, w: nat): (r: Bytes)
    requires AllSized(es, w)
    ensures |r| == |es| * w
    decreases |es|
  {
    if es == [] then []
    else
      MulStep(|es| - 1, w);
      SerializeVector(es[..|es| - 1], w) + es[|es| - 1]
  }

  /** The first `c` chunks of `w` bytes of `b`. */
  function Chunks(b: Bytes, w: nat, c: nat): (r: seq<Bytes>)
    requires c * w <= |b|
    ensures |r| == c && AllSized(r, w)
    decreases c
  {
    if c == 0 then []
    else
      MulStep(c - 1, w);
      Chunks(b, w, c - 1) + [b[(c - 1) * w..c * w]]
  }

  /** deserialize<std::vector<Type>>: fails unless the size divides into elements. */
  function DeserializeVector(b: Bytes, w: nat): (r: Result<seq<Bytes>>)
    requires w > 0
    ensures r.Success? <==> |b| % w == 0
    ensures r.Success? ==> |r.value| * w == |b| && AllSized(r.value, w)
  {
    if |b| % w != 0 then Failure(RuntimeError(VECTOR_SIZE_MESSAGE))
    else
      DivMul(|b|, w);
      Success(Chunks(b, w, |b| / w))
  }

  /** Chunks only depend on the bytes they cover. */
  lemma {:induction false} ChunksPrefix(b: Bytes, b2: Bytes, w: nat, c: nat)
    requires c * w <= |b| <= |b2| && b == b2[..|b|]
    ensures Chunks(b2, w, c) == Chunks(b, w, c)
    decreases c
  {
    if c > 0 {
      MulStep(c - 1, w);
      ChunksPrefix(b, b2, w, c - 1);
      assert b[(c - 1) * w..c * w] == b2[(c - 1) * w..c * w];
    }
  }

  /** Cutting the serialization of a vector into elements gives the elements back. */
  lemma {:induction false} ChunksOfSerialized(es: seq<Bytes>, w: nat)
    requires AllSized(es, w)
    ensures Chunks(SerializeVector(es, w), w, |es|) == es
    decreases |es|
  {
    if es != [] {
      var init, last := es[..|es| - 1], es[|es| - 1];
      var b := SerializeVector(es, w);
      var b0 := SerializeVector(init, w);
      assert b == b0 + last;
      MulStep(|init|, w);
      ChunksOfSerialized(init, w);
      ChunksPrefix(b0, b, w, |init|);
      assert b[|init| * w..|es| * w] == last;
      assert es == init + [last];
    }
  }

  /** Joining the chunks of a prefix gives the prefix back. */
  lemma {:induction false} SerializedChunks(b: Bytes, w: nat, c: nat)
    requires c * w <= |b|
    ensures SerializeVector(Chunks(b, w, c), w) == b[..c * w]
    decreases c
  {
    if c > 0 {
      MulStep(c - 1, w);
      var r := Chunks(b, w, c);
      SerializedChunks(b, w, c - 1);
      assert r[..c - 1] == Chunks(b, w, c - 1);
      assert b[..c * w] == b[..(c - 1) * w] + b[(c - 1) * w..c * w];
    }
  }

  /** A vector survives serialization and deserialization. */
  lemma VectorRoundTrip(es: seq<Bytes>, w: nat)
    requires w > 0 && AllSized(es, w)
    ensures DeserializeVector(SerializeVector(es, w), w) == Success(es)
  {
    MulDiv(|es|, w);
    ChunksOfSerialized(es, w);
  }

  /** Bytes that deserialize to a vector are its serialization. */
  lemma VectorRoundTripBack(b: Bytes, w: nat)
    requires w > 0 && DeserializeVector(b, w).Success?
    ensures SerializeVector(DeserializeVector(b, w).value, w) == b
  {
    DivMul(|b|, w);
    SerializedChunks(b, w, |b| / w);
    assert b[..|b|] == b;
  }

  // ---------------------------------------------------------------------------
  // Maps

  predicate PairsSized(ps: seq<(Bytes, Bytes)>, ks: nat, vs: nat)
  {
    forall i :: 0 <= i < |ps| ==> |ps[i].0| == ks && |ps[i].1| == vs
  }

  /** Key and value bytes of each pair, pair after pair. */
  function JoinPairs(ps: seq<(Bytes, Bytes)>): Bytes
    decreases |ps|
  {
    if ps == [] then [] else JoinPairs(ps[..|ps| - 1]) + ps[|ps| - 1].0 + ps[|ps| - 1].1
  }

  /** The pairs of `m` in the order `order` lists its keys. */
  function PairsOf(m: map<Bytes, Bytes>, order: seq<Bytes>): (r: seq<(Bytes, Bytes)>)
    requires forall i :: 0 <= i < |order| ==> order[i] in m
    ensures |r| == |order|
    decreases |order|
  {
    if order == [] then []
    else
      var k := order[|order| - 1];
      PairsOf(m, order[..|order| - 1]) + [(k, m[k])]
  }

  /** Chunk `i` of `ks + vs` bytes of `b`, split into its key and its value. */
  function ChunkPair(b: Bytes, ks: nat, vs: nat, i: nat): (Bytes, Bytes)
    requires (i + 1) * (ks + vs) <= |b|
  {
    MulStep(i, ks + vs);
    var o := i * (ks + vs);
    (b[o..o + ks], b[o + ks..o + ks + vs])
  }

  /** The first `c` key-value chunks of `b`. */
  function MapPairs(b: Bytes, ks: nat, vs: nat, c: nat): (r: seq<(Bytes, Bytes)>)
    requires c * (ks + vs) <= |b|
    ensures |r| == c
    decreases c
  {
    if c == 0 then [] else MapPairs(b, ks, vs, c - 1) + [ChunkPair(b, ks, vs, c - 1)]
  }

  /** The map built by inserting the pairs in order: std::unordered_map::insert keeps
      the value already present, so the first pair with a key wins. */
  function FirstWins(ps: seq<(Bytes, Bytes)>): map<Bytes, Bytes>
    decreases |ps|
  {
    if ps == [] then map[]
    else
      var m := FirstWins(ps[..|ps| - 1]);
      var (k, v) := ps[|ps| - 1];
      if k in m then m else m[k := v]
  }

  /** deserialize<std::unordered_map<Keytype, Valtype>> as a function of the bytes. */
  function DeserializeMapOf(b: Bytes, ks: nat, vs: nat): (r: Result<map<Bytes, Bytes>>)
    requires ks > 0 && vs > 0
    ensures r.Success? <==> |b| % (ks + vs) == 0
  {
    if |b| % (ks + vs) != 0 then MapSizeError
    else
      DivMul(|b|, ks + vs);
      Success(FirstWins(MapPairs(b, ks, vs, |b| / (ks + vs))))
  }

  const MapSizeError: Result<map<Bytes, Bytes>> := Failure(RuntimeError(MAP_SIZE_MESSAGE))

  /** serialize<std::unordered_map<Keytype, Valtype>>: each key's bytes then its value's
      bytes, in an iteration order the map chooses, returned as the ghost `order`. */
  method SerializeMap(m: map<Bytes, Bytes>, ks: nat, vs: nat) returns (r: Bytes, ghost order: seq<Bytes>)
    requires forall k :: k in m ==> |k| == ks && |m[k]| == vs
    ensures |r| == |m| * (ks + vs)
    ensures (forall k :: k in m <==> k in order) && Distinct(order)
    ensures r == JoinPairs(PairsOf(m, order))
  {
    r, order := [], [];
    var rest := m.Keys;
    while rest != {}
      invariant Enumerating(m, rest, order)
      invariant r == JoinPairs(PairsOf(m, order))
      decreases |rest|
    {
      var k :| k in rest;
      var value := m[k];
      EnumerateStep(m, rest, order, k);
      PairsOfSnoc(m, order, k);
      r := r + SerializeValue(k, ks);
      r := r + SerializeValue(value, vs);
      order := order + [k];
      rest := rest - {k};
    }
    PairsOfSized(m, order, ks, vs);
    JoinPairsLength(PairsOf(m, order), ks, vs);
  }

  /** Partway through iterating over `m`: `order` lists the keys visited so far, each
      once, and `rest` holds the others. */
  ghost predicate Enumerating(m: map<Bytes, Bytes>, rest: set<Bytes>, order: seq<Bytes>)
  {
    && (forall k :: k in m <==> k in rest || k in order)
    && (forall k :: k in rest ==> k !in order)
    && (forall i :: 0 <= i < |order| ==> order[i] in m)
    && Distinct(order)
    && |rest| + |order| == |m|
  }

  lemma EnumerateStep(m: map<Bytes, Bytes>, rest: set<Bytes>, order: seq<Bytes>, k: Bytes)
    requires Enumerating(m, rest, order) && k in rest
    ensures Enumerating(m, rest - {k}, order + [k])
    ensures |rest - {k}| < |rest|
  {
  }

  lemma PairsOfSnoc(m: map<Bytes, Bytes>, order: seq<Bytes>, k: Bytes)
    requires (forall i :: 0 <= i < |order| ==> order[i] in m) && k in m
    ensures JoinPairs(PairsOf(m, order + [k])) == JoinPairs(PairsOf(m, order)) + k + m[k]
  {
    assert (order + [k])[..|order|] == order;
    var ps := PairsOf(m, order) + [(k, m[k])];
    assert PairsOf(m, order + [k]) == ps;
    assert ps[..|ps| - 1] == PairsOf(m, order);
  }

  predicate Distinct(xs: seq<Bytes>)
  {
    forall i, j :: 0 <= i < j < |xs| ==> xs[i] != xs[j]
  }

  /** The loop of deserialize<std::unordered_map>: chunk `i` is cut at `i * (ks + vs)`,
      its key and value deserialized and inserted. */
  method DeserializeMap(b: Bytes, ks: nat, vs: nat) returns (r: Result<map<Bytes, Bytes>>)
    requires ks > 0 && vs > 0
    ensures r == DeserializeMapOf(b, ks, vs)
  {
    var n := ks + vs;
    if |b| % n != 0 {
      return MapSizeError;
    }
    var count := |b| / n;
    DivMul(|b|, n);
    var m: map<Bytes, Bytes> := map[];
    var i := 0;
    while i < count
      invariant 0 <= i <= count
      invariant i * n <= |b|
      invariant m == FirstWins(MapPairs(b, ks, vs, i))
    {
      var o := i * n;
      ChunkBounds(i, count, ks, vs, |b|, o);
      var key := DeserializeValue(b[o..o + ks], ks);
      var val := DeserializeValue(b[o + ks..o + ks + vs], vs);
      var k, v := key.value, val.value;
      MapPairsSnoc(b, ks, vs, i, o);
      FirstWinsSnoc(MapPairs(b, ks, vs, i), k, v);
      if k !in m {
        m := m[k := v];
      }
      i := i + 1;
    }
    r := Success(m);
  }

  lemma ChunkBounds(i: nat, count: nat, ks: nat, vs: nat, len: nat, o: nat)
    requires i < count && count * (ks + vs) == len && o == i * (ks + vs)
    ensures (i + 1) * (ks + vs) <= len && o + ks + vs <= len
  {
    MulMono(i, count, ks + vs);
    MulStep(i, ks + vs);
  }

  /** One more chunk: the pair cut at the next offset. */
  lemma MapPairsSnoc(b: Bytes, ks: nat, vs: nat, i: nat, o: nat)
    requires (i + 1) * (ks + vs) <= |b| && o == i * (ks + vs)
    ensures o + ks + vs <= |b|
    ensures MapPairs(b, ks, vs, i + 1) == MapPairs(b, ks, vs, i) + [(b[o..o + ks], b[o + ks..o + ks + vs])]
  {
    MulStep(i, ks + vs);
  }

  // Properties of map serialization

  lemma {:induction false} JoinPairsLength(ps: seq<(Bytes, Bytes)>, ks: nat, vs: nat)
    requires PairsSized(ps, ks, vs)
    ensures |JoinPairs(ps)| == |ps| * (ks + vs)
    decreases |ps|
  {
    if ps != [] {
      JoinPairsLength(ps[..|ps| - 1], ks, vs);
      MulStep(|ps| - 1, ks + vs);
    }
  }

  /** Chunks only depend on the bytes they cover. */
  lemma {:induction false} MapPairsPrefix(b: Bytes, b2: Bytes, ks: nat, vs: nat, c: nat)
    requires c * (ks + vs) <= |b| <= |b2| && b == b2[..|b|]
    ensures MapPairs(b2, ks, vs, c) == MapPairs(b, ks, vs, c)
    decreases c
  {
    if c > 0 {
      MulStep(c - 1, ks + vs);
      MapPairsPrefix(b, b2, ks, vs, c - 1);
      var o := (c - 1) * (ks + vs);
      assert b[o..o + ks] == b2[o..o + ks];
      assert b[o + ks..o + ks + vs] == b2[o + ks..o + ks + vs];
    }
  }

  /** Cutting joined pairs into chunks gives the pairs back. */
  lemma {:induction false} MapPairsOfJoined(ps: seq<(Bytes, Bytes)>, ks: nat, vs: nat)
    requires PairsSized(ps, ks, vs)
    ensures |ps| * (ks + vs) == |JoinPairs(ps)|
    ensures MapPairs(JoinPairs(ps), ks, vs, |ps|) == ps
    decreases |ps|
  {
    JoinPairsLength(ps, ks, vs);
    if ps != [] {
      var init, last := ps[..|ps| - 1], ps[|ps| - 1];
      var b0, b := JoinPairs(init), JoinPairs(ps);
      MapPairsOfJoined(init, ks, vs);
      MulStep(|init|, ks + vs);
      assert b == b0 + last.0 + last.1;
      MapPairsPrefix(b0, b, ks, vs, |init|);
      LastChunk(b0, last.0, last.1, b, ks, vs, |init|);
      assert ps == init + [last];
    }
  }

  lemma LastChunk(b0: Bytes, k: Bytes, v: Bytes, b: Bytes, ks: nat, vs: nat, c: nat)
    requires |b0| == c * (ks + vs) && |k| == ks && |v| == vs && b == b0 + k + v
    ensures (c + 1) * (ks + vs) <= |b|
    ensures ChunkPair(b, ks, vs, c) == (k, v)
  {
    MulStep(c, ks + vs);
    var o := c * (ks + vs);
    assert b[o..o + ks] == k;
    assert b[o + ks..o + ks + vs] == v;
  }

  /** Inserting a map's pairs in any order that lists each key once rebuilds it. */
  lemma {:induction false} FirstWinsOfPairs(m: map<Bytes, Bytes>, order: seq<Bytes>)
    requires forall i :: 0 <= i < |order| ==> order[i] in m
    requires Distinct(order)
    ensures forall k :: k in FirstWins(PairsOf(m, order)) <==> k in order
    ensures forall k :: k in FirstWins(PairsOf(m, order)) ==> FirstWins(PairsOf(m, order))[k] == m[k]
    decreases |order|
  {
    if order != [] {
      var init, k := order[..|order| - 1], order[|order| - 1];
      FirstWinsOfPairs(m, init);
      var ps := PairsOf(m, order);
      assert ps[..|ps| - 1] == PairsOf(m, init);
      assert k !in init;
      assert forall x :: x in order <==> x in init || x == k;
    }
  }

  /** A map survives serialization and deserialization, whatever order it iterates in. */
  lemma MapRoundTrip(m: map<Bytes, Bytes>, ks: nat, vs: nat, order: seq<Bytes>)
    requires ks > 0 && vs > 0 && forall k :: k in m ==> |k| == ks && |m[k]| == vs
    requires (forall k :: k in m <==> k in order) && Distinct(order)
    ensures DeserializeMapOf(JoinPairs(PairsOf(m, order)), ks, vs) == Success(m)
  {
    var ps := PairsOf(m, order);
    PairsOfSized(m, order, ks, vs);
    MapPairsOfJoined(ps, ks, vs);
    var b := JoinPairs(ps);
    MulDiv(|ps|, ks + vs);
    assert |b| % (ks + vs) == 0 && |b| / (ks + vs) == |ps|;
    FirstWinsOfPairs(m, order);
    assert FirstWins(ps) == m;
    assert DeserializeMapOf(b, ks, vs) == Success(FirstWins(MapPairs(b, ks, vs, |ps|)));
  }

  lemma {:induction false} PairsOfSized(m: map<Bytes, Bytes>, order: seq<Bytes>, ks: nat, vs: nat)
    requires forall k :: k in m ==> |k| == ks && |m[k]| == vs
    requires forall i :: 0 <= i < |order| ==> order[i] in m
    ensures PairsSized(PairsOf(m, order), ks, vs)
    decreases |order|
  {
    if order != [] {
      PairsOfSized(m, order[..|order| - 1], ks, vs);
    }
  }

  /** Chunk `i` of the `c` chunks is cut at `i * (ks + vs)`. */
  lemma {:induction false} MapPairsAt(b: Bytes, ks: nat, vs: nat, c: nat, i: nat)
    requires c * (ks + vs) <= |b| && i < c
    ensures (i + 1) * (ks + vs) <= |b|
    ensures MapPairs(b, ks, vs, c)[i] == ChunkPair(b, ks, vs, i)
    decreases c
  {
    MulMono(i, c, ks + vs);
    if i < c - 1 {
      MulStep(c - 1, ks + vs);
      MapPairsAt(b, ks, vs, c - 1, i);
    }
  }

  /** Inserting one more pair. */
  lemma FirstWinsSnoc(ps: seq<(Bytes, Bytes)>, k: Bytes, v: Bytes)
    ensures FirstWins(ps + [(k, v)])
      == if k in FirstWins(ps) then FirstWins(ps) else FirstWins(ps)[k := v]
  {
    assert (ps + [(k, v)])[..|ps|] == ps;
  }

  /** The first pair with a key gives the key's value in the map. */
  lemma {:induction false} FirstWinsFirst(ps: seq<(Bytes, Bytes)>, i: nat)
    requires i < |ps| && forall j :: 0 <= j < i ==> ps[j].0 != ps[i].0
    ensures ps[i].0 in FirstWins(ps) && FirstWins(ps)[ps[i].0] == ps[i].1
    decreases |ps|
  {
    var init := ps[..|ps| - 1];
    if i < |ps| - 1 {
      FirstWinsFirst(init, i);
    } else {
      FirstWinsKeys(init);
    }
  }

  /** The keys of the map are the keys of the pairs. */
  lemma {:induction false} FirstWinsKeys(ps: seq<(Bytes, Bytes)>)
    ensures forall k :: k in FirstWins(ps) <==> exists j :: 0 <= j < |ps| && ps[j].0 == k
    decreases |ps|
  {
    if ps != [] {
      var init := ps[..|ps| - 1];
      FirstWinsKeys(init);
      assert forall j :: 0 <= j < |init| ==> init[j] == ps[j];
    }
  }
}
