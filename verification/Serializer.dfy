/**
 The nested-type serializer (src/sdk/include/turbo_serialize.h): fixed-size blobs are copied, strings and
 containers carry an eight-byte length, structures are the sequence of their members.
 */
module Serializer {
  import Arith
  import opened Common

  type Byte = b: int | 0 <= b < 256

  /** std::vector; std::set and std::unordered_set; std::map and std::unordered_map. */
  datatype Kind = Vector | SetLike | MapLike

  /** A container of the map kind holds structures of two members, key and value. */
  datatype Ty = Blob(n: nat) | Str | Container(kind: Kind, elem: Ty) | Struct(members: seq<Ty>)

  /** Containers list their elements in iteration order. */
  datatype Val = Bytes(b: seq<Byte>) | Text(s: seq<Byte>) | Items(vs: seq<Val>) | Fields(vs: seq<Val>)

  /** sizeof is never zero, and a structure has members. */
  predicate TyOk(ty: Ty) {
    match ty
    case Blob(n) => n > 0
    case Str => true
    case Container(kind, elem) => TyOk(elem) && (kind.MapLike? ==> elem.Struct? && |elem.members| == 2)
    case Struct(members) => |members| > 0 && forall i | 0 <= i < |members| :: TyOk(members[i])
  }

  /** emplace finds an equal element, or an equal key. */
  predicate Clash(kind: Kind, x: Val, y: Val) {
    match kind
    case Vector => false
    case SetLike => x == y
    case MapLike => x.Fields? && y.Fields? && |x.vs| > 0 && |y.vs| > 0 && x.vs[0] == y.vs[0]
  }

  predicate Clashes(kind: Kind, vs: seq<Val>, x: Val) {
    exists i | 0 <= i < |vs| :: Clash(kind, vs[i], x)
  }

  /** emplace_back and emplace. */
  function Add(kind: Kind, vs: seq<Val>, x: Val): seq<Val> {
    if Clashes(kind, vs, x) then vs else vs + [x]
  }

  function Collect(kind: Kind, vs: seq<Val>): seq<Val> {
    if |vs| == 0 then [] else Add(kind, Collect(kind, vs[..|vs| - 1]), vs[|vs| - 1])
  }

  predicate Typed(ty: Ty, v: Val)
    decreases ty
  {
    match ty
    case Blob(n) => v.Bytes? && |v.b| == n
    case Str => v.Text? && |v.s| < U64
    case Container(kind, elem) =>
      && v.Items? && |v.vs| < U64
      && (forall i | 0 <= i < |v.vs| :: Typed(elem, v.vs[i]))
      && (forall i, j | 0 <= i < j < |v.vs| :: !Clash(kind, v.vs[i], v.vs[j]))
    case Struct(members) =>
      && v.Fields? && |v.vs| == |members|
      && forall i | 0 <= i < |members| :: Typed(members[i], v.vs[i])
  }

  // ---------------------------------------------------------------- lengths

  function Le(x: nat, k: nat): (r: seq<Byte>)
    ensures |r| == k
  {
    if k == 0 then [] else [x % 256] + Le(x / 256, k - 1)
  }

  function UnLe(b: seq<Byte>): nat {
    if |b| == 0 then 0 else b[0] + 256 * UnLe(b[1..])
  }

  function Pow256(k: nat): nat {
    if k == 0 then 1 else 256 * Pow256(k - 1)
  }

  lemma {:induction false} LeUnLe(x: nat, k: nat)
    requires x < Pow256(k)
    ensures UnLe(Le(x, k)) == x
    decreases k
  {
    if k > 0 {
      LeUnLe(x / 256, k - 1);
      assert Le(x, k)[1..] == Le(x / 256, k - 1);
    }
  }

  lemma {:induction false} UnLeLe(b: seq<Byte>)
    ensures UnLe(b) < Pow256(|b|) && Le(UnLe(b), |b|) == b
    decreases |b|
  {
    if |b| > 0 {
      UnLeLe(b[1..]);
      assert b == [b[0]] + b[1..];
    }
  }

  /** Byte `i` of the length is the i-th digit to base 256, lowest first. */
  lemma {:induction false} LeByte(x: nat, k: nat, i: nat)
    requires i < k
    ensures Pow256(i) > 0 && Le(x, k)[i] == x / Pow256(i) % 256
    decreases i
  {
    if i > 0 {
      LeByte(x / 256, k - 1, i - 1);
      DivDigits(x, Pow256(i - 1));
    }
  }

  lemma DivDigits(x: nat, p: nat)
    requires p > 0
    ensures x / 256 / p == x / (256 * p)
  {
    Arith.DivBounds(x, 256);
    Arith.DivBounds(x / 256, p);
    var q := x / 256 / p;
    Arith.MulMono(q * p, x / 256, 256);
    Arith.MulMono(x / 256 + 1, q * p + p, 256);
    assert q * (256 * p) == q * p * 256 && (q * p + p) * 256 == q * p * 256 + p * 256;
    Arith.DivUnique(x, 256 * p, q);
  }

  /** A size_t as it lies in memory. */
  function Len(n: nat): (r: seq<Byte>)
    ensures |r| == 8
  {
    Le(n, 8)
  }

  function UnLen(b: seq<Byte>): nat
    requires |b| >= 8
  {
    UnLe(b[..8])
  }

  lemma LenUnLen(n: nat, rest: seq<Byte>)
    requires n < U64
    ensures UnLen(Len(n) + rest) == n && (Len(n) + rest)[8..] == rest
  {
    Pow8();
    LeUnLe(n, 8);
    assert (Len(n) + rest)[..8] == Len(n);
  }

  lemma Pow8()
    ensures Pow256(8) == U64
  {
    assert Pow256(4) == 0x1_0000_0000;
  }

  // ---------------------------------------------------------------- encoding and decoding

  function Encode(v: Val): seq<Byte>
    decreases v, 1, 0
  {
    match v
    case Bytes(b) => b
    case Text(s) => Len(|s|) + s
    case Items(vs) => Len(|vs|) + EncodeFrom(v, 0)
    case Fields(vs) => EncodeFrom(v, 0)
  }

  /** The elements from number `i` on. */
  function EncodeFrom(v: Val, i: nat): seq<Byte>
    requires (v.Items? || v.Fields?) && i <= |v.vs|
    decreases v, 0, |v.vs| - i
  {
    if i == |v.vs| then [] else Encode(v.vs[i]) + EncodeFrom(v, i + 1)
  }

  type Parsed = Option<(Val, seq<Byte>)>
  type ParsedSeq = Option<(seq<Val>, seq<Byte>)>

  /**
   What the input stream makes of bytes `b`: the value and what is left, or nothing once the flag is
   false.  `z` says whether memcpy_s accepts a copy of no bytes to a destination of no bytes.
   */
  function Parse(z: bool, ty: Ty, b: seq<Byte>): Parsed
    decreases ty, 1, 0
  {
    match ty
    case Blob(n) => if |b| < n then None else Some((Bytes(b[..n]), b[n..]))
    case Str =>
      if |b| < 8 then None
      else
        var len, rest := UnLen(b), b[8..];
        if |rest| < len || (|rest| == 0 && !z) then None else Some((Text(rest[..len]), rest[len..]))
    case Container(kind, elem) =>
      if |b| < 8 then None
      else
        var r := ParseMany(z, elem, UnLen(b), b[8..]);
        if r.None? then None else Some((Items(Collect(kind, r.value.0)), r.value.1))
    case Struct(members) =>
      var r := ParseMembers(z, ty, 0, b);
      if r.None? then None else Some((Fields(r.value.0), r.value.1))
  }

  function ParseMany(z: bool, elem: Ty, n: nat, b: seq<Byte>): ParsedSeq
    decreases elem, 2, n
  {
    if n == 0 then Some(([], b))
    else
      var x := Parse(z, elem, b);
      if x.None? then None
      else
        var xs := ParseMany(z, elem, n - 1, x.value.1);
        if xs.None? then None else Some(([x.value.0] + xs.value.0, xs.value.1))
  }

  function ParseMembers(z: bool, ty: Ty, i: nat, b: seq<Byte>): ParsedSeq
    requires ty.Struct? && i <= |ty.members|
    decreases ty, 0, |ty.members| - i
  {
    if i == |ty.members| then Some(([], b))
    else
      var x := Parse(z, ty.members[i], b);
      if x.None? then None
      else
        var xs := ParseMembers(z, ty, i + 1, x.value.1);
        if xs.None? then None else Some(([x.value.0] + xs.value.0, xs.value.1))
  }

  /** The last thing encoded is an empty string. */
  predicate EndsEmpty(v: Val) {
    match v
    case Bytes(_) => false
    case Text(s) => |s| == 0
    case Items(vs) => |vs| > 0 && EndsEmpty(vs[|vs| - 1])
    case Fields(vs) => |vs| > 0 && EndsEmpty(vs[|vs| - 1])
  }

  // ---------------------------------------------------------------- round trip

  lemma {:induction false} EncodeNotEmpty(ty: Ty, v: Val)
    requires TyOk(ty) && Typed(ty, v)
    ensures |Encode(v)| > 0
    decreases ty
  {
    if ty.Struct? {
      EncodeNotEmpty(ty.members[0], v.vs[0]);
    }
  }

  lemma {:induction false} CollectDistinct(kind: Kind, vs: seq<Val>)
    requires forall i, j | 0 <= i < j < |vs| :: !Clash(kind, vs[i], vs[j])
    ensures Collect(kind, vs) == vs
    decreases |vs|
  {
    if |vs| > 0 {
      var n := |vs| - 1;
      var front := vs[..n];
      CollectDistinct(kind, front);
      assert !Clashes(kind, front, vs[n]) by {
        assert forall i | 0 <= i < n :: front[i] == vs[i];
      }
      assert vs == front + [vs[n]];
    }
  }

  /** Decoding succeeds: there is a byte left to point at, or nothing points past the end. */
  predicate Ends(z: bool, empty: bool, suffix: seq<Byte>) {
    z || |suffix| > 0 || !empty
  }

  /**
   Decoding an encoding followed by anything gives back the value and leaves the rest; the one exception
   is an encoding that ends in an empty string, with nothing behind it, under a memcpy_s that refuses a
   destination of no bytes.
   */
  lemma {:induction false} RoundTrip(z: bool, ty: Ty, v: Val, suffix: seq<Byte>)
    requires TyOk(ty) && Typed(ty, v)
    ensures Parse(z, ty, Encode(v) + suffix) == if Ends(z, EndsEmpty(v), suffix) then Some((v, suffix)) else None
    decreases ty, 1, 0
  {
    var b := Encode(v) + suffix;
    match ty
    case Blob(n) =>
      assert b[..n] == v.b && b[n..] == suffix;
    case Str =>
      TextRoundTrip(z, v, suffix);
    case Container(kind, elem) =>
      LenUnLen(|v.vs|, EncodeFrom(v, 0) + suffix);
      assert b == Len(|v.vs|) + (EncodeFrom(v, 0) + suffix);
      ManyRoundTrip(z, elem, v, 0, suffix);
      CollectDistinct(kind, v.vs);
    case Struct(members) =>
      MembersRoundTrip(z, ty, v, 0, suffix);
  }

  lemma TextRoundTrip(z: bool, v: Val, suffix: seq<Byte>)
    requires Typed(Str, v)
    ensures Parse(z, Str, Encode(v) + suffix) == if Ends(z, EndsEmpty(v), suffix) then Some((v, suffix)) else None
  {
    LenUnLen(|v.s|, v.s + suffix);
    assert Encode(v) + suffix == Len(|v.s|) + (v.s + suffix);
    assert (v.s + suffix)[..|v.s|] == v.s && (v.s + suffix)[|v.s|..] == suffix;
  }

  /** The elements still to come end in an empty string. */
  predicate TailEndsEmpty(v: Val, i: nat)
    requires v.Items? || v.Fields?
  {
    i < |v.vs| && EndsEmpty(v.vs[|v.vs| - 1])
  }

  lemma {:induction false} TailFrom(vs: seq<Val>, i: nat)
    requires i < |vs|
    ensures vs[i..] == [vs[i]] + vs[i + 1..]
  {
  }

  lemma {:induction false} ManyRoundTrip(z: bool, elem: Ty, v: Val, i: nat, suffix: seq<Byte>)
    requires TyOk(elem) && v.Items? && i <= |v.vs| && forall k | 0 <= k < |v.vs| :: Typed(elem, v.vs[k])
    ensures ParseMany(z, elem, |v.vs| - i, EncodeFrom(v, i) + suffix)
      == if Ends(z, TailEndsEmpty(v, i), suffix) then Some((v.vs[i..], suffix)) else None
    decreases elem, 2, |v.vs| - i
  {
    if i == |v.vs| {
      assert EncodeFrom(v, i) + suffix == suffix && v.vs[i..] == [];
    } else {
      var rest := EncodeFrom(v, i + 1) + suffix;
      assert EncodeFrom(v, i) + suffix == Encode(v.vs[i]) + rest;
      RoundTrip(z, elem, v.vs[i], rest);
      ManyRoundTrip(z, elem, v, i + 1, suffix);
      assert i + 1 < |v.vs| ==> |rest| > 0 by {
        if i + 1 < |v.vs| {
          EncodeNotEmpty(elem, v.vs[i + 1]);
        }
      }
      assert i + 1 == |v.vs| ==> rest == suffix;
      TailFrom(v.vs, i);
    }
  }

  lemma {:induction false} MembersRoundTrip(z: bool, ty: Ty, v: Val, i: nat, suffix: seq<Byte>)
    requires ty.Struct? && TyOk(ty) && Typed(ty, v) && i <= |v.vs|
    ensures ParseMembers(z, ty, i, EncodeFrom(v, i) + suffix)
      == if Ends(z, TailEndsEmpty(v, i), suffix) then Some((v.vs[i..], suffix)) else None
    decreases ty, 0, |v.vs| - i
  {
    if i == |v.vs| {
      assert EncodeFrom(v, i) + suffix == suffix && v.vs[i..] == [];
    } else {
      var rest := EncodeFrom(v, i + 1) + suffix;
      assert EncodeFrom(v, i) + suffix == Encode(v.vs[i]) + rest;
      RoundTrip(z, ty.members[i], v.vs[i], rest);
      MembersRoundTrip(z, ty, v, i + 1, suffix);
      if i + 1 < |v.vs| {
        EncodeNotEmpty(ty.members[i + 1], v.vs[i + 1]);
      } else {
        assert rest == suffix;
      }
      assert v.vs[i..] == [v.vs[i]] + v.vs[i + 1..];
    }
  }

  // ---------------------------------------------------------------- strict prefixes

  /** Decoding any strict prefix of an encoding fails. */
  lemma {:induction false} PrefixFails(z: bool, ty: Ty, v: Val, n: nat)
    requires TyOk(ty) && Typed(ty, v) && n < |Encode(v)|
    ensures Parse(z, ty, Encode(v)[..n]).None?
    decreases ty, 1, 0
  {
    var b := Encode(v)[..n];
    match ty
    case Blob(_) =>
    case Str =>
      if n >= 8 {
        assert b == Len(|v.s|) + v.s[..n - 8];
        LenUnLen(|v.s|, v.s[..n - 8]);
      }
    case Container(kind, elem) =>
      if n >= 8 {
        assert b == Len(|v.vs|) + EncodeFrom(v, 0)[..n - 8];
        LenUnLen(|v.vs|, EncodeFrom(v, 0)[..n - 8]);
        ManyPrefixFails(z, elem, v, 0, n - 8);
      }
    case Struct(members) =>
      MembersPrefixFails(z, ty, v, 0, n);
  }

  lemma {:induction false} ManyPrefixFails(z: bool, elem: Ty, v: Val, i: nat, n: nat)
    requires TyOk(elem) && v.Items? && i <= |v.vs| && forall k | 0 <= k < |v.vs| :: Typed(elem, v.vs[k])
    requires n < |EncodeFrom(v, i)|
    ensures ParseMany(z, elem, |v.vs| - i, EncodeFrom(v, i)[..n]).None?
    decreases elem, 2, |v.vs| - i
  {
    var first, rest := Encode(v.vs[i]), EncodeFrom(v, i + 1);
    if n < |first| {
      assert EncodeFrom(v, i)[..n] == first[..n];
      PrefixFails(z, elem, v.vs[i], n);
    } else {
      assert EncodeFrom(v, i)[..n] == first + rest[..n - |first|];
      RoundTrip(z, elem, v.vs[i], rest[..n - |first|]);
      ManyPrefixFails(z, elem, v, i + 1, n - |first|);
    }
  }

  lemma {:induction false} MembersPrefixFails(z: bool, ty: Ty, v: Val, i: nat, n: nat)
    requires ty.Struct? && TyOk(ty) && Typed(ty, v) && i <= |v.vs| && n < |EncodeFrom(v, i)|
    ensures ParseMembers(z, ty, i, EncodeFrom(v, i)[..n]).None?
    decreases ty, 0, |v.vs| - i
  {
    var first, rest := Encode(v.vs[i]), EncodeFrom(v, i + 1);
    if n < |first| {
      assert EncodeFrom(v, i)[..n] == first[..n];
      PrefixFails(z, ty.members[i], v.vs[i], n);
    } else {
      assert EncodeFrom(v, i)[..n] == first + rest[..n - |first|];
      RoundTrip(z, ty.members[i], v.vs[i], rest[..n - |first|]);
      MembersPrefixFails(z, ty, v, i + 1, n - |first|);
    }
  }

  // ---------------------------------------------------------------- the streams

  class OutStream {
    var outStream: seq<Byte>

    constructor ()
      ensures outStream == []
    {
      outStream := [];
    }

    method Write(data: seq<Byte>)
      modifies this
      ensures outStream == old(outStream) + data
    {
      outStream := outStream + data;
    }

    /** operator<< of every type. */
    method Put(v: Val)
      modifies this
      ensures outStream == old(outStream) + Encode(v)
      decreases v, 1, 0
    {
      match v
      case Bytes(b) =>
        Write(b);
      case Text(s) =>
        Write(Len(|s|));
        Write(s);
      case Items(vs) =>
        Write(Len(|vs|));
        PutAll(v);
      case Fields(_) =>
        PutAll(v);
    }

    /** The loop over the elements, and the fold over the members. */
    method PutAll(v: Val)
      requires v.Items? || v.Fields?
      modifies this
      ensures outStream == old(outStream) + EncodeFrom(v, 0)
      decreases v, 0, 0
    {
      var i := 0;
      while i < |v.vs|
        invariant 0 <= i <= |v.vs|
        invariant outStream + EncodeFrom(v, i) == old(outStream) + EncodeFrom(v, 0)
      {
        Put(v.vs[i]);
        i := i + 1;
      }
    }
  }

  class InStream {
    const inStream: seq<Byte>
    const zeroCopyOk: bool
    var offset: nat
    var flag: bool

    ghost predicate Valid()
      reads this
    {
      offset <= |inStream|
    }

    /** What is still to be read. */
    function Rest(): seq<Byte>
      requires Valid()
      reads this
    {
      inStream[offset..]
    }

    constructor (s: seq<Byte>, z: bool)
      ensures Valid() && flag && Rest() == s && inStream == s && zeroCopyOk == z
    {
      inStream, zeroCopyOk, offset, flag := s, z, 0, true;
    }

    /** Copies bytes out; `data` is meaningful only while the flag holds. */
    method Read(len: nat) returns (data: seq<Byte>)
      requires Valid()
      modifies this
      ensures Valid()
      ensures flag == (old(flag) && len <= |old(Rest())| && (zeroCopyOk || |old(Rest())| > 0))
      ensures flag ==> data == old(Rest())[..len] && Rest() == old(Rest())[len..]
    {
      data := [];
      if !flag || |inStream| - offset < len {
        flag := false;
        return;
      }
      if |inStream| == offset && !zeroCopyOk {
        flag := false;
      }
      data := inStream[offset..offset + len];
      offset := offset + len;
    }

    /** The stream has decoded a value of type `ty` from `b`, or its flag is false. */
    ghost predicate Decoded(ok: bool, ty: Ty, b: seq<Byte>, v: Val)
      requires Valid()
      reads this
    {
      var p := Parse(zeroCopyOk, ty, b);
      && flag == (ok && p.Some?)
      && (flag ==> p.value == (v, Rest()))
    }

    /** operator>> of every type. */
    method Get(ty: Ty) returns (v: Val)
      requires Valid() && TyOk(ty)
      modifies this
      ensures Valid() && Decoded(old(flag), ty, old(Rest()), v)
      decreases ty, 3, 0
    {
      match ty
      case Blob(n) =>
        var data := Read(n);
        v := Bytes(data);
      case Str =>
        v := GetText();
      case Container(_, _) =>
        v := GetContainer(ty);
      case Struct(_) =>
        v := GetStruct(ty);
    }

    method GetText() returns (v: Val)
      requires Valid()
      modifies this
      ensures Valid() && Decoded(old(flag), Str, old(Rest()), v)
    {
      v := Text([]);
      var data := Read(8);
      if !flag {
        return;
      }
      var len := UnLe(data);
      if |inStream| - offset < len {
        flag := false;
        return;
      }
      data := Read(len);
      v := Text(data);
    }

    method GetContainer(ty: Ty) returns (v: Val)
      requires Valid() && TyOk(ty) && ty.Container?
      modifies this
      ensures Valid() && Decoded(old(flag), ty, old(Rest()), v)
      decreases ty, 1, 0
    {
      v := Items([]);
      if !flag {
        return;
      }
      var data := Read(8);
      if flag {
        var vs := GetMany(ty.elem, ty.kind, UnLe(data));
        v := Items(vs);
      }
    }

    /** The loop over the elements. */
    method GetMany(elem: Ty, kind: Kind, len: nat) returns (vs: seq<Val>)
      requires Valid() && TyOk(elem) && flag
      modifies this
      ensures Valid() && flag == ParseMany(zeroCopyOk, elem, len, old(Rest())).Some?
      ensures flag ==> ParseMany(zeroCopyOk, elem, len, old(Rest())).value.1 == Rest()
      ensures flag ==> vs == Collect(kind, ParseMany(zeroCopyOk, elem, len, old(Rest())).value.0)
      decreases elem, 4, 0
    {
      vs := [];
      ghost var all, b := [], Rest();
      ghost var result := ParseMany(zeroCopyOk, elem, len, b);
      JoinedNil(result);
      var i := 0;
      while i < len && flag
        invariant 0 <= i <= len && Valid() && vs == Collect(kind, all)
        invariant result == if flag then Joined(all, ParseMany(zeroCopyOk, elem, len - i, Rest())) else None
        decreases len - i
      {
        var x := Get(elem);
        if flag {
          JoinedSnoc(all, x, ParseMany(zeroCopyOk, elem, len - i - 1, Rest()));
        }
        vs := Add(kind, vs, x);
        CollectSnoc(kind, all, x);
        all := all + [x];
        i := i + 1;
      }
      if flag {
        assert all + [] == all;
      }
    }

    /** The fold over the members, which goes on after a failure. */
    method GetStruct(ty: Ty) returns (v: Val)
      requires Valid() && TyOk(ty) && ty.Struct?
      modifies this
      ensures Valid() && Decoded(old(flag), ty, old(Rest()), v)
      decreases ty, 1, 0
    {
      v := Fields([]);
      if !flag {
        return;
      }
      var vs := [];
      ghost var result := ParseMembers(zeroCopyOk, ty, 0, Rest());
      JoinedNil(result);
      var i := 0;
      while i < |ty.members|
        invariant 0 <= i <= |ty.members| && Valid()
        invariant result == if flag then Joined(vs, ParseMembers(zeroCopyOk, ty, i, Rest())) else None
      {
        var x := Get(ty.members[i]);
        if flag {
          JoinedSnoc(vs, x, ParseMembers(zeroCopyOk, ty, i + 1, Rest()));
        }
        vs := vs + [x];
        i := i + 1;
      }
      if flag {
        assert vs + [] == vs;
      }
      v := Fields(vs);
    }

    method Check() returns (ok: bool)
      requires Valid()
      ensures ok <==> flag && Rest() == []
    {
      ok := flag && offset == |inStream|;
    }
  }

  /**
   Writing a value and reading it back from a stream that holds its encoding and then `suffix`: the check
   at the end passes iff nothing is left over and the decoder accepted the end of the value.
   */
  method WriteThenRead(ty: Ty, v: Val, suffix: seq<Byte>, z: bool) returns (w: Val, ok: bool)
    requires TyOk(ty) && Typed(ty, v)
    ensures ok <==> suffix == [] && (z || !EndsEmpty(v))
    ensures ok ==> w == v
  {
    var out := new OutStream();
    out.Put(v);
    out.Write(suffix);
    assert out.outStream == Encode(v) + suffix;
    var s := new InStream(out.outStream, z);
    RoundTrip(z, ty, v, suffix);
    w := s.Get(ty);
    ok := s.Check();
  }

  lemma JoinedNil(p: ParsedSeq)
    ensures Joined([], p) == p
  {
    if p.Some? {
      assert [] + p.value.0 == p.value.0;
    }
  }

  lemma CollectSnoc(kind: Kind, vs: seq<Val>, x: Val)
    ensures Collect(kind, vs + [x]) == Add(kind, Collect(kind, vs), x)
  {
    assert (vs + [x])[..|vs|] == vs;
  }

  /** A parsed list put behind values already there. */
  function Joined(xs: seq<Val>, p: ParsedSeq): ParsedSeq {
    if p.None? then None else Some((xs + p.value.0, p.value.1))
  }

  lemma JoinedSnoc(xs: seq<Val>, x: Val, p: ParsedSeq)
    ensures Joined(xs + [x], p) == Joined(xs, Joined([x], p))
  {
    if p.Some? {
      assert xs + [x] + p.value.0 == xs + ([x] + p.value.0);
    }
  }
}
