/**
 * The typed fields of a message: what the write_* functions of ostream put on the wire and the read_* functions of
 * istream take off it.
 */
module Messages {
  import opened Bytes

  /**
   * Integer: write_int8 .. write_uint64. Opaque: write_float32 and write_float64, as their bytes.
   * Text: write_string<T>, Chunk: write_data_chunk<char, U>; prefix is sizeof(T) or sizeof(U).
   */
  datatype Field =
    | Integer(width: nat, signed: bool, value: int)
    | Opaque(bytes: seq<byte>)
    | Text(prefix: nat, text: seq<byte>)
    | Chunk(prefix: nat, chunk: seq<byte>)

  /** Which read function the receiver calls. */
  datatype Shape =
    | IntegerShape(width: nat, signed: bool)
    | OpaqueShape(width: nat)
    | TextShape(prefix: nat)
    | ChunkShape(prefix: nat)

  datatype Read = Ok(field: Field, rest: seq<byte>) | Short

  datatype ReadMany = AllOk(fields: seq<Field>, rest: seq<byte>) | AllShort

  function ShapeOf(f: Field): Shape {
    match f
    case Integer(w, s, _) => IntegerShape(w, s)
    case Opaque(bs) => OpaqueShape(|bs|)
    case Text(p, _) => TextShape(p)
    case Chunk(p, _) => ChunkShape(p)
  }

  /** Values the C++ types can hold. */
  predicate Typed(f: Field) {
    match f
    case Integer(w, signed, v) =>
      w > 0 && (if signed then -(Pow256(w) / 2) <= v < Pow256(w) / 2 else 0 <= v < Pow256(w))
    case _ => true
  }

  // ----- writing -----

  /** static_cast of a length to a type of `width` bytes. */
  function Truncated(n: nat, width: nat): (r: nat)
    ensures r <= n && r < Pow256(width)
    ensures r == n <==> n < Pow256(width)
  {
    ModuloAtMost(n, Pow256(width));
    n % Pow256(width)
  }

  lemma ModuloAtMost(n: nat, m: nat)
    requires m > 0
    ensures n % m <= n && n % m < m && (n % m == n <==> n < m)
  {
    if n < m {
      SmallModulo(n, m);
    }
  }

  /** The representation of a signed or unsigned number, as a number of `width` bytes. */
  function TwosComplement(v: int, width: nat): (u: nat)
    ensures u < Pow256(width)
  {
    v % Pow256(width)
  }

  /** A string's length prefix is cut to its type, but all of its bytes follow; a chunk's length is cut first. */
  function Written(f: Field): seq<byte> {
    match f
    case Integer(w, _, v) => LittleEndian(w, TwosComplement(v, w))
    case Opaque(bs) => bs
    case Text(p, s) => LittleEndian(p, |s|) + s
    case Chunk(p, s) => LittleEndian(p, Truncated(|s|, p)) + s[..Truncated(|s|, p)]
  }

  function WrittenAll(fs: seq<Field>): seq<byte> {
    if fs == [] then [] else Written(fs[0]) + WrittenAll(fs[1..])
  }

  // ----- reading -----

  /** std::string(data, 0, size) goes through a C string: it stops at the first NUL. */
  function CString(s: seq<byte>): (r: seq<byte>)
    ensures r <= s && 0 !in r
    ensures r == s <==> 0 !in s
    ensures |r| < |s| ==> s[|r|] == 0
  {
    if s == [] || s[0] == 0 then [] else [s[0]] + CString(s[1..])
  }

  /**
   * The array of read_string has no NUL after its last byte, so the scan for one goes on into whatever follows it in
   * memory, and the cut to the size comes after. The string is the same for every memory that follows, and the scan
   * ends within the array exactly when the bytes read have a NUL among them.
   */
  lemma {:induction false} ScanPastTheArray(data: seq<byte>, beyond: seq<byte>)
    ensures var scanned := CString(data + beyond);
            && scanned[..Min(|data|, |scanned|)] == CString(data)
            && (|scanned| < |data| <==> 0 in data)
  {
    if data != [] {
      assert (data + beyond)[1..] == data[1..] + beyond;
      ScanPastTheArray(data[1..], beyond);
      CutAfterFirst(data[0], CString(data[1..] + beyond), |data| - 1);
    }
  }

  lemma CutAfterFirst(b: byte, s: seq<byte>, n: nat)
    ensures ([b] + s)[..Min(1 + n, |[b] + s|)] == [b] + s[..Min(n, |s|)]
  {
  }

  function ToInteger(w: nat, signed: bool, u: nat): int {
    if signed && u >= Pow256(w) / 2 then u - Pow256(w) else u
  }

  function ReadField(shape: Shape, bs: seq<byte>): Read {
    match shape
    case IntegerShape(w, signed) =>
      if |bs| < w then Short else Ok(Integer(w, signed, ToInteger(w, signed, FromLittleEndian(bs[..w]))), bs[w..])
    case OpaqueShape(w) =>
      if |bs| < w then Short else Ok(Opaque(bs[..w]), bs[w..])
    case TextShape(p) =>
      if |bs| < p then Short else
        var n := FromLittleEndian(bs[..p]);
        if |bs| - p < n then Short else Ok(Text(p, CString(bs[p..p + n])), bs[p + n..])
    case ChunkShape(p) =>
      if |bs| < p then Short else
        var n := FromLittleEndian(bs[..p]);
        if |bs| - p < n then Short else Ok(Chunk(p, bs[p..p + n]), bs[p + n..])
  }

  /** A read comes up short exactly when the bytes it asks for are not all there. */
  lemma ShortExactly(shape: Shape, bs: seq<byte>)
    ensures ReadField(shape, bs) == Short <==>
            match shape
            case IntegerShape(w, _) => |bs| < w
            case OpaqueShape(w) => |bs| < w
            case TextShape(p) => |bs| < p || |bs| < p + FromLittleEndian(bs[..p])
            case ChunkShape(p) => |bs| < p || |bs| < p + FromLittleEndian(bs[..p])
  {
  }

  function ReadAll(shapes: seq<Shape>, bs: seq<byte>): ReadMany {
    if shapes == [] then AllOk([], bs)
    else match ReadField(shapes[0], bs)
      case Short => AllShort
      case Ok(f, rest) =>
        match ReadAll(shapes[1..], rest)
        case AllShort => AllShort
        case AllOk(fs, rest') => AllOk([f] + fs, rest')
  }

  function Shapes(fs: seq<Field>): (s: seq<Shape>)
    ensures |s| == |fs|
  {
    if fs == [] then [] else [ShapeOf(fs[0])] + Shapes(fs[1..])
  }

  // ----- the bytes on the wire -----

  /** A number is its digits to the base 256, lowest first; a negative one is that of its complement. */
  lemma {:induction false} IntegerBytes(w: nat, signed: bool, v: int, i: nat)
    requires Typed(Integer(w, signed, v)) && i < w
    ensures |Written(Integer(w, signed, v))| == w
    ensures var u := if v < 0 then v + Pow256(w) else v;
            u >= 0 && Written(Integer(w, signed, v))[i] == (u / Pow256(i)) % 256
  {
    var p := Pow256(w);
    Pow256Even(w);
    if v >= 0 {
      SmallModulo(v, p);
    } else {
      ShiftModulo(v, p);
    }
    LittleEndianDigit(w, TwosComplement(v, w), i);
  }

  /** A string or chunk is its length, cut to the width of the prefix, and its bytes. */
  lemma {:induction false} SizedBytes(p: nat, s: seq<byte>, i: nat)
    requires i < p
    ensures var t := Written(Text(p, s));
            |t| == p + |s| && t[i] == (|s| / Pow256(i)) % 256 && t[p..] == s
    ensures var n := |s| % Pow256(p);
            var c := Written(Chunk(p, s));
            n <= |s| && |c| == p + n && c[i] == (n / Pow256(i)) % 256 && c[p..] == s[..n]
  {
    LittleEndianDigit(p, |s|, i);
    LittleEndianDigit(p, Truncated(|s|, p), i);
  }

  // ----- round trip -----

  /** What the caller has to see to before writing: the length fits its prefix, and a string has no NUL. */
  predicate Fits(f: Field) {
    match f
    case Text(p, s) => |s| < Pow256(p) && 0 !in s
    case Chunk(p, s) => |s| < Pow256(p)
    case _ => true
  }

  lemma {:induction false} Pow256Even(w: nat)
    requires w > 0
    ensures Pow256(w) % 2 == 0 && Pow256(w) / 2 > 0
  {
    assert Pow256(w) == 2 * (128 * Pow256(w - 1));
  }

  lemma {:induction false} IntegerRoundTrip(w: nat, signed: bool, v: int)
    requires Typed(Integer(w, signed, v))
    ensures ToInteger(w, signed, TwosComplement(v, w)) == v
  {
    var p := Pow256(w);
    Pow256Even(w);
    if v >= 0 {
      SmallModulo(v, p);
    } else {
      SmallModulo(v + p, p);
      ShiftModulo(v, p);
    }
  }

  lemma ShiftModulo(v: int, p: int)
    requires p > 0 && -p <= v < 0
    ensures v % p == if v == -p then 0 else v + p
  {
    if v == -p {
      assert v == p * -1;
    } else {
      var q := v / p;
      assert v == p * q + v % p;
      assert q >= 0 ==> p * q >= 0;
      assert q <= -2 ==> p * q <= p * -2;
    }
  }

  lemma {:induction false} IntegerAfterWrite(w: nat, signed: bool, v: int, rest: seq<byte>)
    requires Typed(Integer(w, signed, v))
    ensures ReadField(IntegerShape(w, signed), Written(Integer(w, signed, v)) + rest) == Ok(Integer(w, signed, v), rest)
  {
    var written := LittleEndian(w, TwosComplement(v, w));
    Prefix(written, rest);
    LittleEndianRoundTrip(w, TwosComplement(v, w));
    IntegerRoundTrip(w, signed, v);
  }

  lemma Prefix(a: seq<byte>, b: seq<byte>)
    ensures (a + b)[..|a|] == a && (a + b)[|a|..] == b
  {
  }

  lemma Middle(a: seq<byte>, b: seq<byte>, c: seq<byte>)
    ensures (a + b + c)[..|a|] == a && (a + b + c)[|a|..|a| + |b|] == b && (a + b + c)[|a| + |b|..] == c
  {
  }

  lemma TextAfterWrite(p: nat, s: seq<byte>, rest: seq<byte>)
    ensures var n := Truncated(|s|, p);
            ReadField(TextShape(p), Written(Text(p, s)) + rest) == Ok(Text(p, CString(s[..n])), s[n..] + rest)
  {
    var n := Truncated(|s|, p);
    var prefix := LittleEndian(p, |s|);
    LittleEndianTruncates(p, |s|);
    assert Written(Text(p, s)) + rest == prefix + s[..n] + (s[n..] + rest);
    Middle(prefix, s[..n], s[n..] + rest);
  }

  lemma ChunkAfterWrite(p: nat, s: seq<byte>, rest: seq<byte>)
    ensures ReadField(ChunkShape(p), Written(Chunk(p, s)) + rest) == Ok(Chunk(p, s[..Truncated(|s|, p)]), rest)
  {
    var n := Truncated(|s|, p);
    LittleEndianRoundTrip(p, n);
    Middle(LittleEndian(p, n), s[..n], rest);
  }

  /** What one read does with one written field, whether or not the field fits. */
  function ReadBack(f: Field, rest: seq<byte>): Read {
    match f
    case Integer(_, _, _) => Ok(f, rest)
    case Opaque(_) => Ok(f, rest)
    case Text(p, s) => var n := Truncated(|s|, p); Ok(Text(p, CString(s[..n])), s[n..] + rest)
    case Chunk(p, s) => Ok(Chunk(p, s[..Truncated(|s|, p)]), rest)
  }

  lemma {:induction false} ReadAfterWrite(f: Field, rest: seq<byte>)
    requires Typed(f)
    ensures ReadField(ShapeOf(f), Written(f) + rest) == ReadBack(f, rest)
  {
    match f {
      case Integer(w, signed, v) => IntegerAfterWrite(w, signed, v, rest);
      case Opaque(bs) => Prefix(bs, rest);
      case Text(p, s) => TextAfterWrite(p, s, rest);
      case Chunk(p, s) => ChunkAfterWrite(p, s, rest);
    }
  }

  /** A field comes back, with the cursor at the next one, exactly when it fits. */
  lemma FieldRoundTrip(f: Field, rest: seq<byte>)
    requires Typed(f)
    ensures var r := ReadField(ShapeOf(f), Written(f) + rest);
            r.Ok? && (r == Ok(f, rest) <==> Fits(f)) && (r.field == f ==> Fits(f))
  {
    ReadAfterWrite(f, rest);
    match f {
      case Text(p, s) =>
        if |s| < Pow256(p) {
          assert s[..|s|] == s && s[|s|..] + rest == rest;
        }
      case Chunk(p, s) =>
        if |s| < Pow256(p) {
          assert s[..|s|] == s;
        }
      case _ =>
    }
  }

  /** The cursor is at the next field after every read, except after a string too long for its prefix. */
  lemma CursorAfterRead(f: Field, rest: seq<byte>)
    requires Typed(f)
    ensures var r := ReadField(ShapeOf(f), Written(f) + rest);
            r.Ok? && (r.rest == rest <==> (f.Text? ==> |f.text| < Pow256(f.prefix)))
  {
    ReadAfterWrite(f, rest);
    if f.Text? {
      var n := Truncated(|f.text|, f.prefix);
      assert |f.text[n..] + rest| == |f.text| - n + |rest|;
      if n == |f.text| {
        assert f.text[n..] + rest == rest;
      }
    }
  }

  /** Any bytes of a width read as a number of the type, which is written as those bytes. */
  lemma {:induction false} NumberOfBytes(w: nat, signed: bool, bs: seq<byte>)
    requires w > 0 && |bs| == w
    ensures var r := ReadField(IntegerShape(w, signed), bs);
            r.Ok? && r.rest == [] && Typed(r.field) && Written(r.field) == bs
  {
    var u: int := FromLittleEndian(bs);
    var p := Pow256(w);
    assert bs[..w] == bs && bs[w..] == [];
    FromLittleEndianBound(bs);
    LittleEndianOfRead(bs);
    Pow256Even(w);
    if signed && u >= p / 2 {
      ShiftModulo(u - p, p);
    } else {
      SmallModulo(u, p);
    }
  }

  /** Whatever is read is a value of the type read, in every shape. */
  lemma ReadIsTyped(shape: Shape, bs: seq<byte>)
    requires shape.IntegerShape? ==> shape.width > 0
    ensures var r := ReadField(shape, bs);
            r.Ok? ==> Typed(r.field) && ShapeOf(r.field) == shape
  {
    var r := ReadField(shape, bs);
    if r.Ok? && shape.IntegerShape? {
      NumberOfBytes(shape.width, shape.signed, bs[..shape.width]);
      assert bs[..shape.width][..shape.width] == bs[..shape.width];
    }
  }

  predicate AllTyped(fs: seq<Field>) { fs == [] || (Typed(fs[0]) && AllTyped(fs[1..])) }

  predicate AllFit(fs: seq<Field>) { fs == [] || (Fits(fs[0]) && AllFit(fs[1..])) }

  /** A whole message comes back, and nothing else is consumed, exactly when every field fits. */
  lemma {:induction false} MessageRoundTrip(fs: seq<Field>, rest: seq<byte>)
    requires AllTyped(fs)
    ensures ReadAll(Shapes(fs), WrittenAll(fs) + rest) == AllOk(fs, rest) <==> AllFit(fs)
  {
    if fs == [] {
      assert WrittenAll(fs) + rest == rest;
    } else {
      var more := WrittenAll(fs[1..]) + rest;
      assert WrittenAll(fs) + rest == Written(fs[0]) + more;
      assert Shapes(fs)[1..] == Shapes(fs[1..]);
      FieldRoundTrip(fs[0], more);
      if Fits(fs[0]) {
        MessageRoundTrip(fs[1..], rest);
        assert fs == [fs[0]] + fs[1..];
      }
    }
  }
}
