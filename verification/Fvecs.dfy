/**
 The fvecs files of the vector-database benchmark: each record is its dimension as a
 little-endian 32-bit integer and that many 32-bit floats. A float is kept as its four
 bytes.
 */
module Fvecs {
  import opened Arith
  import opened Wrappers

  type Byte = b: int | 0 <= b < 256
  type Bytes = seq<Byte>
  type Float = f: Bytes | |f| == 4 witness [0, 0, 0, 0]
  type Vector = seq<Float>

  // ----- 32-bit integers

  /** `struct.unpack("<i", raw)`. */
  function UnpackInt(raw: Bytes): (n: int)
    requires |raw| == 4
    ensures -0x8000_0000 <= n < 0x8000_0000
  {
    var u := raw[0] as int + 0x100 * (raw[1] as int) + 0x1_0000 * (raw[2] as int) + 0x100_0000 * (raw[3] as int);
    if u >= 0x8000_0000 then u - 0x1_0000_0000 else u
  }

  /** `struct.pack("<i", n)` of a number that is not negative. */
  function PackInt(n: nat): (raw: Bytes)
    requires n < 0x8000_0000
    ensures |raw| == 4 && UnpackInt(raw) == n
  {
    var q := n / 0x100;
    var r := q / 0x100;
    [n % 0x100, q % 0x100, r % 0x100, r / 0x100]
  }

  // ----- Records

  function PackFloats(v: Vector): (raw: Bytes)
    ensures |raw| == 4 * |v|
  {
    if v == [] then [] else v[0] + PackFloats(v[1..])
  }

  /** `struct.unpack(f"<{dim}f", raw)`. */
  function UnpackFloats(raw: Bytes, dim: nat): (v: Vector)
    requires |raw| == 4 * dim
    ensures |v| == dim
  {
    if dim == 0 then [] else [raw[..4]] + UnpackFloats(raw[4..], dim - 1)
  }

  lemma {:induction false} UnpackPack(v: Vector)
    ensures UnpackFloats(PackFloats(v), |v|) == v
  {
    if v != [] {
      var raw := PackFloats(v);
      assert raw[..4] == v[0] && raw[4..] == PackFloats(v[1..]);
      UnpackPack(v[1..]);
      assert v == [v[0]] + v[1..];
    }
  }

  predicate Encodable(v: Vector) {
    1 <= |v| < 0x8000_0000
  }

  function Encode(vectors: seq<Vector>): Bytes
    requires forall i :: 0 <= i < |vectors| ==> Encodable(vectors[i])
  {
    if vectors == [] then []
    else
      assert Encodable(vectors[0]);
      PackInt(|vectors[0]|) + PackFloats(vectors[0]) + Encode(vectors[1..])
  }

  // ----- Reading

  datatype Problem = TruncatedDimension | InvalidDimension | TruncatedVector

  /** The vectors yielded, and how the generator ended. */
  datatype Reading = Reading(vectors: seq<Vector>, problem: Option<Problem>)

  /** One record at the start of the file: the vector and the bytes it takes. */
  datatype Record = Record(vector: Vector, size: nat) | Bad(problem: Problem)

  function ReadRecord(file: Bytes): (r: Record)
    requires file != []
    ensures r.Record? ==> 8 <= r.size <= |file| && r.size == 4 + 4 * |r.vector| && UnpackInt(file[..4]) == |r.vector|
  {
    if |file| < 4 then Bad(TruncatedDimension)
    else
      var dim := UnpackInt(file[..4]);
      if dim <= 0 then Bad(InvalidDimension)
      else if |file| < 4 + 4 * dim then Bad(TruncatedVector)
      else Record(UnpackFloats(file[4..4 + 4 * dim], dim), 4 + 4 * dim)
  }

  function Put(v: Vector, r: Reading): Reading {
    Reading([v] + r.vectors, r.problem)
  }

  function ReadAll(file: Bytes): Reading {
    if file == [] then Reading([], None)
    else
      match ReadRecord(file)
      case Bad(p) => Reading([], Some(p))
      case Record(v, size) => Put(v, ReadAll(file[size..]))
  }

  function Limited(r: Reading, limit: Option<int>): Reading {
    if limit.Some? && limit.value <= 0 then Reading([], None)
    else if limit.Some? && |r.vectors| >= limit.value then Reading(r.vectors[..limit.value], None)
    else r
  }

  lemma PutMore(front: seq<Vector>, v: Vector, rest: seq<Vector>)
    ensures front + ([v] + rest) == (front + [v]) + rest
  {
  }

  /** `iter_fvecs`. With a limit it yields the first vectors of the whole reading, and it
      does not look at what follows them. */
  method IterFvecs(file: Bytes, limit: Option<int>) returns (r: Reading)
    ensures r == Limited(ReadAll(file), limit)
  {
    var vectors: seq<Vector> := [];
    var left := file;
    ghost var whole := ReadAll(file);
    ghost var rest := whole;
    while limit.None? || |vectors| < limit.value
      invariant rest == ReadAll(left)
      invariant whole == Reading(vectors + rest.vectors, rest.problem)
      invariant limit.Some? ==> |vectors| <= Max(0, limit.value)
      decreases |left|
    {
      if left == [] {
        return Reading(vectors, None);
      }
      var record := ReadRecord(left);
      if record.Bad? {
        return Reading(vectors, Some(record.problem));
      }
      left := left[record.size..];
      rest := ReadAll(left);
      PutMore(vectors, record.vector, rest.vectors);
      vectors := vectors + [record.vector];
    }
    r := Reading(vectors, None);
  }

  /** `n` records of the first dimension fill the file exactly. */
  ghost predicate Fills(file: Bytes, n: nat) {
    |file| >= 4 && UnpackInt(file[..4]) > 0 && n * (4 + 4 * UnpackInt(file[..4])) == |file|
  }

  /** `count_fvecs`; `None` is an error. A file that is read to its end is counted right
      exactly when its dimensions are on average the first one. */
  method CountFvecs(file: Bytes) returns (r: Option<nat>)
    ensures forall n: nat :: r == Some(n) <==> Fills(file, n)
    ensures var vs := ReadAll(file).vectors;
            file != [] && ReadAll(file).problem.None? ==> (r == Some(|vs|) <==> Total(vs) == |vs| * |vs[0]|)
  {
    if file != [] && ReadAll(file).problem.None? {
      CountIff(file);
    }
    if |file| < 4 {
      return None;
    }
    var dim := UnpackInt(file[..4]);
    if dim <= 0 {
      return None;
    }
    var stride := 4 + dim * 4;
    FillsIff(file, stride);
    if |file| % stride != 0 {
      return None;
    }
    r := Some(|file| / stride);
  }

  lemma FillsIff(file: Bytes, stride: nat)
    requires |file| >= 4 && UnpackInt(file[..4]) > 0 && stride == 4 + 4 * UnpackInt(file[..4])
    ensures forall n: nat :: Fills(file, n) <==> |file| % stride == 0 && |file| / stride == n
  {
    forall n: nat
      ensures Fills(file, n) <==> |file| % stride == 0 && |file| / stride == n
    {
      if Fills(file, n) {
        DivUnique(|file|, stride, n, 0);
      }
    }
  }

  // ----- The round trip

  lemma Parts(a: Bytes, b: Bytes, c: Bytes)
    ensures var s := a + b + c; s[..|a|] == a && s[|a|..|a| + |b|] == b && s[|a| + |b|..] == c
  {
  }

  lemma RecordRoundTrip(v: Vector, k: Bytes)
    requires Encodable(v)
    ensures var file := PackInt(|v|) + PackFloats(v) + k;
            ReadRecord(file) == Record(v, 4 + 4 * |v|) && file[4 + 4 * |v|..] == k
  {
    var file := PackInt(|v|) + PackFloats(v) + k;
    Parts(PackInt(|v|), PackFloats(v), k);
    UnpackPack(v);
  }

  /** Writing vectors and reading the file gives the same vectors, and all of it is read. */
  lemma {:induction false} RoundTrip(vectors: seq<Vector>)
    requires forall i :: 0 <= i < |vectors| ==> Encodable(vectors[i])
    ensures ReadAll(Encode(vectors)) == Reading(vectors, None)
  {
    if vectors != [] {
      RoundTrip(vectors[1..]);
      FirstRoundTrip(vectors[0], Encode(vectors[1..]));
      assert vectors == [vectors[0]] + vectors[1..];
    }
  }

  lemma FirstRoundTrip(v: Vector, k: Bytes)
    requires Encodable(v)
    ensures ReadAll(PackInt(|v|) + PackFloats(v) + k) == Put(v, ReadAll(k))
  {
    RecordRoundTrip(v, k);
  }

  lemma PackUnpackInt(raw: Bytes)
    requires |raw| == 4 && UnpackInt(raw) >= 0
    ensures PackInt(UnpackInt(raw)) == raw
  {
    var a, b, c, d: int := raw[0], raw[1], raw[2], raw[3];
    var n := UnpackInt(raw);
    assert n == a + 0x100 * (b + 0x100 * (c + 0x100 * d));
    assert n / 0x100 == b + 0x100 * (c + 0x100 * d) && n % 0x100 == a;
    assert (n / 0x100) / 0x100 == c + 0x100 * d && (n / 0x100) % 0x100 == b;
  }

  lemma {:induction false} PackUnpackFloats(raw: Bytes, dim: nat)
    requires |raw| == 4 * dim
    ensures PackFloats(UnpackFloats(raw, dim)) == raw
  {
    if dim > 0 {
      PackUnpackFloats(raw[4..], dim - 1);
      assert UnpackFloats(raw, dim)[1..] == UnpackFloats(raw[4..], dim - 1);
      assert raw == raw[..4] + raw[4..];
    }
  }

  /** A record that is read is the encoding of its vector. */
  lemma RecordIs(file: Bytes)
    requires file != [] && ReadRecord(file).Record?
    ensures var r := ReadRecord(file);
            Encodable(r.vector) && file == PackInt(|r.vector|) + PackFloats(r.vector) + file[r.size..]
  {
    var r := ReadRecord(file);
    PackUnpackInt(file[..4]);
    PackUnpackFloats(file[4..r.size], |r.vector|);
    assert file == file[..4] + file[4..r.size] + file[r.size..];
  }

  /** A file that is read to its end is the encoding of the vectors read. */
  lemma {:induction false} ReadIsEncoding(file: Bytes)
    requires ReadAll(file).problem.None?
    ensures var vs := ReadAll(file).vectors;
            (forall i :: 0 <= i < |vs| ==> Encodable(vs[i])) && Encode(vs) == file
  {
    if file != [] {
      var r := ReadRecord(file);
      RecordIs(file);
      ReadIsEncoding(file[r.size..]);
      assert ReadAll(file).vectors[1..] == ReadAll(file[r.size..]).vectors;
    }
  }

  /** The reader accepts exactly the encodings, and reads what was encoded. */
  lemma ReaderIsInverse(file: Bytes, vectors: seq<Vector>)
    ensures ReadAll(file) == Reading(vectors, None)
       <==> (forall i :: 0 <= i < |vectors| ==> Encodable(vectors[i])) && Encode(vectors) == file
  {
    if ReadAll(file) == Reading(vectors, None) {
      ReadIsEncoding(file);
    }
    if (forall i :: 0 <= i < |vectors| ==> Encodable(vectors[i])) && Encode(vectors) == file {
      RoundTrip(vectors);
    }
  }

  lemma SignOf(raw: Bytes)
    requires |raw| == 4
    ensures UnpackInt(raw) <= 0 <==> raw[3] >= 0x80 || (raw[0] == 0 && raw[1] == 0 && raw[2] == 0 && raw[3] == 0)
  {
  }

  /** Why no record can be read from the rest of a file, which is not empty: it has less than
      four bytes; they are zero or have the sign bit set; or the floats are missing. */
  ghost predicate Refused(tail: Bytes, problem: Problem) {
    if |tail| < 4 then tail != [] && problem == TruncatedDimension
    else if tail[3] >= 0x80 || tail[..4] == [0, 0, 0, 0] then problem == InvalidDimension
    else problem == TruncatedVector && exists dim: nat :: dim < 0x8000_0000 && tail[..4] == PackInt(dim) && |tail| < 4 + 4 * dim
  }

  lemma RefusedIff(tail: Bytes, problem: Problem)
    requires tail != []
    ensures ReadRecord(tail) == Bad(problem) <==> Refused(tail, problem)
  {
    if |tail| >= 4 {
      var raw := tail[..4];
      SignOf(raw);
      if UnpackInt(raw) > 0 {
        PackUnpackInt(raw);
      }
    }
  }

  ghost predicate AllEncodable(vectors: seq<Vector>) {
    forall i :: 0 <= i < |vectors| ==> Encodable(vectors[i])
  }

  lemma EncodeFirst(v: Vector, rest: seq<Vector>, tail: Bytes)
    requires Encodable(v) && AllEncodable(rest)
    ensures AllEncodable([v] + rest)
    ensures Encode([v] + rest) + tail == PackInt(|v|) + PackFloats(v) + (Encode(rest) + tail)
  {
    var vs := [v] + rest;
    assert vs[1..] == rest && vs[0] == v;
    assert AllEncodable(vs);
    assert Encode(vs) == PackInt(|v|) + PackFloats(v) + Encode(rest);
  }

  lemma {:induction false} TailOf(file: Bytes, problem: Problem) returns (tail: Bytes)
    requires ReadAll(file).problem == Some(problem)
    ensures var vs := ReadAll(file).vectors; AllEncodable(vs) && file == Encode(vs) + tail && Refused(tail, problem)
  {
    var r := ReadRecord(file);
    if r.Bad? {
      tail := file;
      RefusedIff(file, problem);
    } else {
      RecordIs(file);
      tail := TailOf(file[r.size..], problem);
      EncodeFirst(r.vector, ReadAll(file[r.size..]).vectors, tail);
    }
  }

  lemma {:induction false} ReadThenRefused(vectors: seq<Vector>, tail: Bytes, problem: Problem)
    requires AllEncodable(vectors) && Refused(tail, problem)
    ensures ReadAll(Encode(vectors) + tail) == Reading(vectors, Some(problem))
  {
    if vectors == [] {
      RefusedIff(tail, problem);
      assert Encode(vectors) + tail == tail;
    } else {
      var v := vectors[0];
      assert vectors == [v] + vectors[1..];
      ReadThenRefused(vectors[1..], tail, problem);
      EncodeFirst(v, vectors[1..], tail);
      FirstRoundTrip(v, Encode(vectors[1..]) + tail);
    }
  }

  /** A reading fails with some vectors and a problem exactly if the file is the encoding of
      the vectors and then something that cannot be read, for that reason. */
  lemma FailsIff(file: Bytes, vectors: seq<Vector>, problem: Problem)
    ensures ReadAll(file) == Reading(vectors, Some(problem))
       <==> AllEncodable(vectors) && exists tail :: file == Encode(vectors) + tail && Refused(tail, problem)
  {
    if ReadAll(file) == Reading(vectors, Some(problem)) {
      var tail := TailOf(file, problem);
    }
    if AllEncodable(vectors) {
      forall tail | file == Encode(vectors) + tail && Refused(tail, problem)
        ensures ReadAll(file) == Reading(vectors, Some(problem))
      {
        ReadThenRefused(vectors, tail, problem);
      }
    }
  }

  // ----- The count

  /** How many floats there are in all. */
  function Total(vectors: seq<Vector>): nat {
    if vectors == [] then 0 else |vectors[0]| + Total(vectors[1..])
  }

  lemma {:induction false} SizeOf(file: Bytes)
    requires ReadAll(file).problem.None?
    ensures |file| == 4 * |ReadAll(file).vectors| + 4 * Total(ReadAll(file).vectors)
  {
    if file != [] {
      var r := ReadRecord(file);
      SizeOf(file[r.size..]);
      assert ReadAll(file).vectors[1..] == ReadAll(file[r.size..]).vectors;
    }
  }

  /** The exact condition for a right count of a file that is read to its end. */
  lemma CountIff(file: Bytes)
    requires file != [] && ReadAll(file).problem.None?
    ensures var vs := ReadAll(file).vectors;
            vs != [] && (Fills(file, |vs|) <==> Total(vs) == |vs| * |vs[0]|)
  {
    var vs := ReadAll(file).vectors;
    FirstRead(file, vs);
    SizeOf(file);
    Strides(|vs|, |vs[0]|);
  }

  lemma FirstRead(file: Bytes, vs: seq<Vector>)
    requires file != [] && vs == ReadAll(file).vectors && ReadAll(file).problem.None?
    ensures vs != [] && vs[0] != [] && |file| >= 4 && UnpackInt(file[..4]) == |vs[0]|
  {
    assert vs[0] == ReadRecord(file).vector;
  }

  lemma Strides(n: nat, d: nat)
    ensures n * (4 + 4 * d) == 4 * n + 4 * (n * d)
  {
  }

  lemma {:induction false} TotalUniform(vectors: seq<Vector>, dim: nat)
    requires forall i :: 0 <= i < |vectors| ==> |vectors[i]| == dim
    ensures Total(vectors) == |vectors| * dim
  {
    if vectors != [] {
      TotalUniform(vectors[1..], dim);
      assert |vectors| * dim == (|vectors| - 1) * dim + dim;
    }
  }

  /** A file that is read to its end, with one dimension throughout, is counted right. */
  lemma CountAgrees(file: Bytes)
    requires file != [] && ReadAll(file).problem.None?
    requires forall i :: 0 <= i < |ReadAll(file).vectors| ==> |ReadAll(file).vectors[i]| == |ReadAll(file).vectors[0]|
    ensures Fills(file, |ReadAll(file).vectors|)
  {
    CountIff(file);
    TotalUniform(ReadAll(file).vectors, |ReadAll(file).vectors[0]|);
  }

  lemma EncodedRead(vectors: seq<Vector>, first: Vector)
    requires forall i :: 0 <= i < |vectors| ==> Encodable(vectors[i])
    requires vectors != [] && vectors[0] == first
    ensures var file := Encode(vectors);
            && file != [] && ReadAll(file) == Reading(vectors, None)
            && |file| == 4 * |vectors| + 4 * Total(vectors) && UnpackInt(file[..4]) == |first|
  {
    var file := Encode(vectors);
    RoundTrip(vectors);
    SizeOf(file);
    assert file[..4] == PackInt(|first|);
  }

  /** The count looks at the first dimension only: it can accept mixed dimensions and then
      be wrong, or be right by their average. */
  lemma CountCanBeWrong(f: Float)
    ensures var file := Encode([[f], [f, f, f]]);
            ReadAll(file) == Reading([[f], [f, f, f]], None) && Fills(file, 3)
    ensures var file := Encode([[f, f], [f], [f, f, f]]);
            ReadAll(file) == Reading([[f, f], [f], [f, f, f]], None) && Fills(file, 3)
  {
    TotalOfTwo([f], [f, f, f]);
    EncodedRead([[f], [f, f, f]], [f]);
    TotalOfThree([f, f], [f], [f, f, f]);
    EncodedRead([[f, f], [f], [f, f, f]], [f, f]);
  }

  lemma TotalOfTwo(u: Vector, v: Vector)
    ensures Total([u, v]) == |u| + |v|
  {
    assert [u, v][1..] == [v];
    assert Total([v]) == |v| + Total([v][1..]) == |v|;
  }

  lemma TotalOfThree(u: Vector, v: Vector, w: Vector)
    ensures Total([u, v, w]) == |u| + |v| + |w|
  {
    assert [u, v, w][1..] == [v, w];
    TotalOfTwo(v, w);
  }
}
