/**
 What the decoder accepts.  emplace silently drops a set element or a map key that is there already, so the
 bytes of an accepted value need not be its encoding; this module says exactly when they are.
 */
module Accepted {
  import opened Common
  import opened Serializer

  /** Typed, except that containers may hold clashing elements. */
  predicate Shaped(ty: Ty, v: Val)
    decreases ty
  {
    match ty
    case Blob(n) => v.Bytes? && |v.b| == n
    case Str => v.Text? && |v.s| < U64
    case Container(_, elem) => v.Items? && |v.vs| < U64 && forall i | 0 <= i < |v.vs| :: Shaped(elem, v.vs[i])
    case Struct(members) =>
      v.Fields? && |v.vs| == |members| && forall i | 0 <= i < |members| :: Shaped(members[i], v.vs[i])
  }

  // ---------------------------------------------------------------- decoding without dropping

  /** The decoder with every element that the bytes spell out, repeated or not. */
  function Raw(z: bool, ty: Ty, b: seq<Byte>): Parsed
    decreases ty, 1, 0
  {
    match ty
    case Blob(_) => Parse(z, ty, b)
    case Str => Parse(z, ty, b)
    case Container(_, elem) =>
      if |b| < 8 then None
      else
        var r := RawMany(z, elem, UnLen(b), b[8..]);
        if r.None? then None else Some((Items(r.value.0), r.value.1))
    case Struct(_) =>
      var r := RawMembers(z, ty, 0, b);
      if r.None? then None else Some((Fields(r.value.0), r.value.1))
  }

  function RawMany(z: bool, elem: Ty, n: nat, b: seq<Byte>): ParsedSeq
    decreases elem, 2, n
  {
    if n == 0 then Some(([], b))
    else
      var x := Raw(z, elem, b);
      if x.None? then None
      else
        var xs := RawMany(z, elem, n - 1, x.value.1);
        if xs.None? then None else Some(([x.value.0] + xs.value.0, xs.value.1))
  }

  function RawMembers(z: bool, ty: Ty, i: nat, b: seq<Byte>): ParsedSeq
    requires ty.Struct? && i <= |ty.members|
    decreases ty, 0, |ty.members| - i
  {
    if i == |ty.members| then Some(([], b))
    else
      var x := Raw(z, ty.members[i], b);
      if x.None? then None
      else
        var xs := RawMembers(z, ty, i + 1, x.value.1);
        if xs.None? then None else Some(([x.value.0] + xs.value.0, xs.value.1))
  }

  // ---------------------------------------------------------------- sizes

  /** The encoding of a list of values. */
  function EncodeAll(vs: seq<Val>): seq<Byte> {
    if |vs| == 0 then [] else Encode(vs[0]) + EncodeAll(vs[1..])
  }

  lemma {:induction false} EncodeFromIsAll(v: Val, i: nat)
    requires (v.Items? || v.Fields?) && i <= |v.vs|
    ensures EncodeFrom(v, i) == EncodeAll(v.vs[i..])
    decreases |v.vs| - i
  {
    if i < |v.vs| {
      EncodeFromIsAll(v, i + 1);
      assert v.vs[i..][1..] == v.vs[i + 1..];
    }
  }

  lemma EncodeAllCons(x: Val, xs: seq<Val>)
    ensures EncodeAll([x] + xs) == Encode(x) + EncodeAll(xs)
  {
    assert ([x] + xs)[1..] == xs;
  }

  lemma LenOf(b: seq<Byte>)
    requires |b| >= 8
    ensures UnLen(b) < U64 && b == Len(UnLen(b)) + b[8..]
  {
    UnLeLe(b[..8]);
    Pow8();
  }

  lemma {:induction false} ItemsEncoding(vs: seq<Val>)
    ensures Encode(Items(vs)) == Len(|vs|) + EncodeAll(vs)
  {
    EncodeFromIsAll(Items(vs), 0);
    assert vs[0..] == vs;
  }

  lemma {:induction false} FieldsEncoding(vs: seq<Val>)
    ensures Encode(Fields(vs)) == EncodeAll(vs)
  {
    EncodeFromIsAll(Fields(vs), 0);
    assert vs[0..] == vs;
  }

  lemma {:induction false} EncodeAllSnoc(vs: seq<Val>, x: Val)
    ensures EncodeAll(vs + [x]) == EncodeAll(vs) + Encode(x)
    decreases |vs|
  {
    if |vs| == 0 {
      assert vs + [x] == [x] && EncodeAll([x]) == Encode(x) + EncodeAll([x][1..]);
    } else {
      EncodeAllSnoc(vs[1..], x);
      assert (vs + [x])[1..] == vs[1..] + [x] && (vs + [x])[0] == vs[0];
    }
  }

  lemma {:induction false} ShapedNotEmpty(ty: Ty, v: Val)
    requires TyOk(ty) && Shaped(ty, v)
    ensures |Encode(v)| > 0
    decreases ty
  {
    if ty.Struct? {
      ShapedNotEmpty(ty.members[0], v.vs[0]);
      FieldsEncoding(v.vs);
    }
  }

  /** No two elements clash. */
  ghost predicate Distinct(kind: Kind, vs: seq<Val>) {
    forall i, j | 0 <= i < j < |vs| :: !Clash(kind, vs[i], vs[j])
  }

  /** Collecting drops bytes exactly when something clashes. */
  lemma {:induction false} CollectShrinks(kind: Kind, vs: seq<Val>)
    requires forall i | 0 <= i < |vs| :: |Encode(vs[i])| > 0
    ensures |EncodeAll(Collect(kind, vs))| <= |EncodeAll(vs)|
    ensures !Distinct(kind, vs) ==> |EncodeAll(Collect(kind, vs))| < |EncodeAll(vs)|
    decreases |vs|
  {
    if |vs| > 0 {
      var n := |vs| - 1;
      var front, last := vs[..n], vs[n];
      assert vs == front + [last];
      CollectShrinks(kind, front);
      EncodeAllSnoc(front, last);
      EncodeAllSnoc(Collect(kind, front), last);
      if Distinct(kind, front) && !Distinct(kind, vs) {
        ClashWithLast(kind, vs);
      }
    }
  }

  lemma {:induction false} ClashWithLast(kind: Kind, vs: seq<Val>)
    requires |vs| > 0 && Distinct(kind, vs[..|vs| - 1]) && !Distinct(kind, vs)
    ensures Collect(kind, vs) == vs[..|vs| - 1]
  {
    var front, last := vs[..|vs| - 1], vs[|vs| - 1];
    assert vs == front + [last];
    CollectDistinct(kind, front);
    if !Clashes(kind, front, last) {
      DistinctSnoc(kind, front, last);
    }
  }

  lemma {:induction false} DistinctSnoc(kind: Kind, front: seq<Val>, last: Val)
    requires Distinct(kind, front) && !Clashes(kind, front, last)
    ensures Distinct(kind, front + [last])
  {
    var vs := front + [last];
    forall i, j | 0 <= i < j < |vs|
      ensures !Clash(kind, vs[i], vs[j])
    {
      assert vs[i] == front[i];
      if j < |front| {
        assert vs[j] == front[j];
      }
    }
  }

  /** Collected elements of a shape have the shape. */
  lemma {:induction false} CollectMember(kind: Kind, vs: seq<Val>, i: nat)
    requires i < |Collect(kind, vs)|
    ensures Collect(kind, vs)[i] in vs && |Collect(kind, vs)| <= |vs|
    decreases |vs|
  {
    var n := |vs| - 1;
    CollectLength(kind, vs);
    if i < |Collect(kind, vs[..n])| {
      CollectMember(kind, vs[..n], i);
    }
  }

  lemma {:induction false} CollectLength(kind: Kind, vs: seq<Val>)
    ensures |Collect(kind, vs)| <= |vs|
    decreases |vs|
  {
    if |vs| > 0 {
      CollectLength(kind, vs[..|vs| - 1]);
    }
  }

  // ---------------------------------------------------------------- the decoder against the bytes

  /** `v` is what the decoder makes of a value that the bytes spell out as `u`. */
  ghost predicate DecodesAs(ty: Ty, u: Val, v: Val) {
    && Shaped(ty, u) && Shaped(ty, v)
    && (Typed(ty, u) ==> v == u)
    && (TyOk(ty) && !Typed(ty, u) ==> |Encode(v)| < |Encode(u)|)
  }

  /** The same for the elements of a container. */
  ghost predicate AllDecodeAs(elem: Ty, us: seq<Val>, vs: seq<Val>) {
    && |us| == |vs|
    && (forall i | 0 <= i < |us| :: Shaped(elem, us[i]) && Shaped(elem, vs[i]))
    && (AllTyped(elem, us) ==> vs == us)
    && (TyOk(elem) && !AllTyped(elem, us) ==> |EncodeAll(vs)| < |EncodeAll(us)|)
  }

  ghost predicate AllTyped(elem: Ty, us: seq<Val>) {
    forall i | 0 <= i < |us| :: Typed(elem, us[i])
  }

  /** The bytes are the encoding of what they spell out, and the decoder accepts them as they are. */
  ghost predicate Spells(z: bool, ty: Ty, b: seq<Byte>) {
    var u, v := Raw(z, ty, b), Parse(z, ty, b);
    && (u.Some? <==> v.Some?)
    && (u.Some? ==> v.value.1 == u.value.1 && b == Encode(u.value.0) + u.value.1 && DecodesAs(ty, u.value.0, v.value.0))
  }

  lemma {:induction false} ConsDecodes(elem: Ty, u: Val, v: Val, us: seq<Val>, vs: seq<Val>)
    requires DecodesAs(elem, u, v) && AllDecodeAs(elem, us, vs)
    ensures AllDecodeAs(elem, [u] + us, [v] + vs)
  {
    EncodeAllCons(u, us);
    EncodeAllCons(v, vs);
    assert AllTyped(elem, [u] + us) <==> Typed(elem, u) && AllTyped(elem, us) by {
      if AllTyped(elem, [u] + us) {
        assert Typed(elem, ([u] + us)[0]);
        forall i | 0 <= i < |us|
          ensures Typed(elem, us[i])
        {
          assert ([u] + us)[i + 1] == us[i];
        }
      }
    }
  }

  /** The element loops of both decoders, `n` elements from bytes `b`. */
  ghost predicate LoopsSpell(elem: Ty, n: nat, b: seq<Byte>, u: ParsedSeq, v: ParsedSeq) {
    && (u.Some? <==> v.Some?)
    && (u.Some? ==>
         && |u.value.0| == n && v.value.1 == u.value.1 && b == EncodeAll(u.value.0) + u.value.1
         && AllDecodeAs(elem, u.value.0, v.value.0))
  }

  lemma {:induction false} ManySpell(z: bool, elem: Ty, n: nat, b: seq<Byte>)
    ensures LoopsSpell(elem, n, b, RawMany(z, elem, n, b), ParseMany(z, elem, n, b))
    decreases elem, 4, n
  {
    if n > 0 {
      BytesSpell(z, elem, b);
      var x, y := Raw(z, elem, b), Parse(z, elem, b);
      if x.Some? {
        ManySpell(z, elem, n - 1, x.value.1);
        var xs, ys := RawMany(z, elem, n - 1, x.value.1), ParseMany(z, elem, n - 1, x.value.1);
        if xs.Some? {
          ConsSpells(elem, n, b, x.value.1, x.value.0, y.value.0, xs, ys);
        }
      }
    }
  }

  lemma {:induction false} ConsSpells(
      elem: Ty, n: nat, b: seq<Byte>, more: seq<Byte>, u: Val, v: Val, xs: ParsedSeq, ys: ParsedSeq)
    requires n > 0 && b == Encode(u) + more && DecodesAs(elem, u, v)
    requires xs.Some? && LoopsSpell(elem, n - 1, more, xs, ys)
    ensures LoopsSpell(elem, n, b, Some(([u] + xs.value.0, xs.value.1)), Some(([v] + ys.value.0, ys.value.1)))
  {
    ConsDecodes(elem, u, v, xs.value.0, ys.value.0);
    EncodeAllCons(u, xs.value.0);
    Reassociate(Encode(u), EncodeAll(xs.value.0), xs.value.1);
  }

  lemma {:induction false} CollectDecodes(kind: Kind, elem: Ty, us: seq<Val>, vs: seq<Val>)
    requires AllDecodeAs(elem, us, vs) && |us| < U64
    ensures DecodesAs(Container(kind, elem), Items(us), Items(Collect(kind, vs)))
  {
    var ty, c := Container(kind, elem), Collect(kind, vs);
    CollectLength(kind, vs);
    forall i | 0 <= i < |c|
      ensures Shaped(elem, c[i])
    {
      CollectMember(kind, vs, i);
    }
    assert Typed(ty, Items(us)) <==> AllTyped(elem, us) && Distinct(kind, us);
    if Typed(ty, Items(us)) {
      CollectDistinct(kind, us);
    }
    if TyOk(ty) && !Typed(ty, Items(us)) {
      forall i | 0 <= i < |vs|
        ensures |Encode(vs[i])| > 0
      {
        ShapedNotEmpty(elem, vs[i]);
      }
      CollectShrinks(kind, vs);
      ItemsEncoding(us);
      ItemsEncoding(c);
    }
  }

  lemma {:induction false} ContainerSpells(z: bool, ty: Ty, b: seq<Byte>)
    requires ty.Container?
    ensures Spells(z, ty, b)
    decreases ty, 1, 0
  {
    if |b| >= 8 {
      var n, body := UnLen(b), b[8..];
      LenOf(b);
      ManySpell(z, ty.elem, n, body);
      var u, v := RawMany(z, ty.elem, n, body), ParseMany(z, ty.elem, n, body);
      if u.Some? {
        CollectDecodes(ty.kind, ty.elem, u.value.0, v.value.0);
        ItemsEncoding(u.value.0);
        Reassociate(Len(n), EncodeAll(u.value.0), u.value.1);
      }
    }
  }

  lemma Reassociate(x: seq<Byte>, y: seq<Byte>, z: seq<Byte>)
    ensures x + (y + z) == x + y + z
  {
  }

  /** The members of a structure from number `i` on. */
  ghost predicate MembersDecodeAs(ty: Ty, i: nat, us: seq<Val>, vs: seq<Val>)
    requires ty.Struct? && i <= |ty.members|
  {
    && |us| == |vs| == |ty.members| - i
    && (forall k | i <= k < |ty.members| :: Shaped(ty.members[k], us[k - i]) && Shaped(ty.members[k], vs[k - i]))
    && (MembersTyped(ty, i, us) ==> vs == us)
    && ((forall k | i <= k < |ty.members| :: TyOk(ty.members[k])) && !MembersTyped(ty, i, us) ==>
          |EncodeAll(vs)| < |EncodeAll(us)|)
  }

  ghost predicate MembersTyped(ty: Ty, i: nat, us: seq<Val>)
    requires ty.Struct? && i <= |ty.members| && |us| == |ty.members| - i
  {
    forall k | i <= k < |ty.members| :: Typed(ty.members[k], us[k - i])
  }

  lemma {:induction false} ConsMembers(ty: Ty, i: nat, u: Val, v: Val, us: seq<Val>, vs: seq<Val>)
    requires ty.Struct? && i < |ty.members| && DecodesAs(ty.members[i], u, v) && MembersDecodeAs(ty, i + 1, us, vs)
    ensures MembersDecodeAs(ty, i, [u] + us, [v] + vs)
  {
    EncodeAllCons(u, us);
    EncodeAllCons(v, vs);
    var us', vs' := [u] + us, [v] + vs;
    assert MembersTyped(ty, i, us') <==> Typed(ty.members[i], u) && MembersTyped(ty, i + 1, us) by {
      if MembersTyped(ty, i, us') {
        assert Typed(ty.members[i], us'[i - i]);
        forall k | i + 1 <= k < |ty.members|
          ensures Typed(ty.members[k], us[k - (i + 1)])
        {
          assert Typed(ty.members[k], us'[k - i]);
        }
      }
    }
  }

  /** The member folds of both decoders from member `i` on. */
  ghost predicate FoldsSpell(ty: Ty, i: nat, b: seq<Byte>, u: ParsedSeq, v: ParsedSeq)
    requires ty.Struct? && i <= |ty.members|
  {
    && (u.Some? <==> v.Some?)
    && (u.Some? ==>
         && v.value.1 == u.value.1 && b == EncodeAll(u.value.0) + u.value.1
         && MembersDecodeAs(ty, i, u.value.0, v.value.0))
  }

  lemma {:induction false} MembersSpell(z: bool, ty: Ty, i: nat, b: seq<Byte>)
    requires ty.Struct? && i <= |ty.members|
    ensures FoldsSpell(ty, i, b, RawMembers(z, ty, i, b), ParseMembers(z, ty, i, b))
    decreases ty, 0, |ty.members| - i
  {
    if i < |ty.members| {
      BytesSpell(z, ty.members[i], b);
      var x, y := Raw(z, ty.members[i], b), Parse(z, ty.members[i], b);
      if x.Some? {
        MembersSpell(z, ty, i + 1, x.value.1);
        var xs, ys := RawMembers(z, ty, i + 1, x.value.1), ParseMembers(z, ty, i + 1, x.value.1);
        if xs.Some? {
          ConsFolds(ty, i, b, x.value.1, x.value.0, y.value.0, xs, ys);
        }
      }
    }
  }

  lemma {:induction false} ConsFolds(
      ty: Ty, i: nat, b: seq<Byte>, more: seq<Byte>, u: Val, v: Val, xs: ParsedSeq, ys: ParsedSeq)
    requires ty.Struct? && i < |ty.members| && b == Encode(u) + more && DecodesAs(ty.members[i], u, v)
    requires xs.Some? && FoldsSpell(ty, i + 1, more, xs, ys)
    ensures FoldsSpell(ty, i, b, Some(([u] + xs.value.0, xs.value.1)), Some(([v] + ys.value.0, ys.value.1)))
  {
    ConsMembers(ty, i, u, v, xs.value.0, ys.value.0);
    EncodeAllCons(u, xs.value.0);
    Reassociate(Encode(u), EncodeAll(xs.value.0), xs.value.1);
  }

  lemma {:induction false} StructSpells(z: bool, ty: Ty, b: seq<Byte>)
    requires ty.Struct?
    ensures Spells(z, ty, b)
    decreases ty, 1, 0
  {
    MembersSpell(z, ty, 0, b);
    var u, v := RawMembers(z, ty, 0, b), ParseMembers(z, ty, 0, b);
    if u.Some? {
      FieldsEncoding(u.value.0);
      FieldsEncoding(v.value.0);
      assert Typed(ty, Fields(u.value.0)) <==> MembersTyped(ty, 0, u.value.0);
    }
  }

  lemma {:induction false} TextSpells(z: bool, b: seq<Byte>)
    ensures Spells(z, Str, b)
  {
    if |b| >= 8 {
      LenOf(b);
    }
  }

  lemma {:induction false} BytesSpell(z: bool, ty: Ty, b: seq<Byte>)
    ensures Spells(z, ty, b)
    decreases ty, 3, 0
  {
    match ty
    case Blob(_) =>
    case Str => TextSpells(z, b);
    case Container(_, _) => ContainerSpells(z, ty, b);
    case Struct(_) => StructSpells(z, ty, b);
  }

  // ---------------------------------------------------------------- when accepted bytes are the encoding

  /**
   Whatever the type, with sets and maps at any depth: accepted bytes are the encoding of the value returned
   exactly when they spell out a proper value, that is, repeat no set element and no map key.
   */
  lemma {:induction false} AcceptedIsEncodingIff(z: bool, ty: Ty, b: seq<Byte>)
    requires TyOk(ty) && Parse(z, ty, b).Some?
    ensures Raw(z, ty, b).Some?
    ensures var (v, rest) := Parse(z, ty, b).value;
      b == Encode(v) + rest <==> Typed(ty, Raw(z, ty, b).value.0)
  {
    BytesSpell(z, ty, b);
  }

  /** No container that drops clashing elements. */
  predicate Plain(ty: Ty) {
    match ty
    case Blob(_) => true
    case Str => true
    case Container(kind, elem) => kind.Vector? && Plain(elem)
    case Struct(members) => forall i | 0 <= i < |members| :: Plain(members[i])
  }

  lemma {:induction false} PlainTyped(ty: Ty, v: Val)
    requires Plain(ty) && Shaped(ty, v)
    ensures Typed(ty, v)
    decreases ty
  {
    match ty
    case Blob(_) =>
    case Str =>
    case Container(_, elem) =>
      forall i | 0 <= i < |v.vs|
        ensures Typed(elem, v.vs[i])
      {
        PlainTyped(elem, v.vs[i]);
      }
    case Struct(members) =>
      forall i | 0 <= i < |members|
        ensures Typed(members[i], v.vs[i])
      {
        PlainTyped(members[i], v.vs[i]);
      }
  }

  /** Without sets and maps they always are: with RoundTrip, encodings are unique. */
  lemma {:induction false} AcceptedIsEncoding(z: bool, ty: Ty, b: seq<Byte>)
    requires Plain(ty) && Parse(z, ty, b).Some?
    ensures var (v, rest) := Parse(z, ty, b).value; Typed(ty, v) && b == Encode(v) + rest
  {
    BytesSpell(z, ty, b);
    PlainTyped(ty, Raw(z, ty, b).value.0);
  }

  lemma ParseTwo(z: bool, x: Byte)
    ensures ParseMany(z, Blob(1), 2, [x, x]) == Some(([Bytes([x]), Bytes([x])], []))
  {
    var one := Bytes([x]);
    assert Parse(z, Blob(1), [x, x]) == Some((one, [x])) by {
      assert [x, x][1..] == [x] && [x, x][..1] == [x];
    }
    assert Parse(z, Blob(1), [x]) == Some((one, [])) by {
      assert [x][1..] == [] && [x][..1] == [x];
    }
    assert ParseMany(z, Blob(1), 1, [x]) == Some(([one] + [], []));
    assert [one] + ([one] + []) == [one, one];
  }

  lemma CollectTwice(x: Val)
    ensures Collect(SetLike, [x, x]) == [x]
  {
    CollectSnoc(SetLike, [], x);
    CollectSnoc(SetLike, [x], x);
    assert [] + [x] == [x] && [x] + [x] == [x, x];
    assert Clash(SetLike, [x][0], x);
  }

  /** With sets it also accepts an encoding that repeats an element, and drops the repetition. */
  lemma RepeatedElementAccepted(z: bool, x: Byte)
    ensures Parse(z, Container(SetLike, Blob(1)), Len(2) + [x, x]) == Some((Items([Bytes([x])]), []))
  {
    LenUnLen(2, [x, x]);
    ParseTwo(z, x);
    CollectTwice(Bytes([x]));
  }

  // ---------------------------------------------------------------- what emplace keeps

  /** `x` is the first of the entries with its key. */
  ghost predicate FirstOfKey(vs: seq<Val>, x: Val) {
    exists i :: 0 <= i < |vs| && vs[i] == x && NoKeyBefore(vs, i)
  }

  ghost predicate NoKeyBefore(vs: seq<Val>, i: nat) {
    i < |vs| && IsPair(vs[i]) && forall j | 0 <= j < i :: IsPair(vs[j]) ==> vs[j].vs[0] != vs[i].vs[0]
  }

  predicate IsPair(x: Val) {
    x.Fields? && |x.vs| == 2
  }

  ghost predicate Pairs(vs: seq<Val>) {
    forall i | 0 <= i < |vs| :: IsPair(vs[i])
  }

  ghost predicate DistinctKeys(vs: seq<Val>) {
    Pairs(vs) && forall i, j | 0 <= i < j < |vs| :: vs[i].vs[0] != vs[j].vs[0]
  }

  lemma {:induction false} FirstOfKeyStep(front: seq<Val>, last: Val, x: Val)
    requires Pairs(front) && IsPair(last)
    ensures FirstOfKey(front + [last], x) <==>
      FirstOfKey(front, x) || (x == last && forall j | 0 <= j < |front| :: front[j].vs[0] != last.vs[0])
  {
    var vs := front + [last];
    assert forall j | 0 <= j < |front| :: vs[j] == front[j];
    if FirstOfKey(vs, x) {
      var i :| 0 <= i < |vs| && vs[i] == x && NoKeyBefore(vs, i);
      if i < |front| {
        assert NoKeyBefore(front, i);
      } else {
        assert forall j | 0 <= j < |front| :: IsPair(vs[j]) && vs[j].vs[0] != last.vs[0];
      }
    }
    if FirstOfKey(front, x) {
      var i :| 0 <= i < |front| && front[i] == x && NoKeyBefore(front, i);
      assert NoKeyBefore(vs, i);
    }
    if x == last && forall j | 0 <= j < |front| :: front[j].vs[0] != last.vs[0] {
      assert NoKeyBefore(vs, |front|);
    }
  }

  /** Every key that was read has its first entry in the map. */
  lemma {:induction false} KeyIsThere(vs: seq<Val>, j: nat)
    requires Pairs(vs) && j < |vs|
    ensures exists i :: 0 <= i <= j && vs[i].vs[0] == vs[j].vs[0] && NoKeyBefore(vs, i)
    decreases j
  {
    if k :| 0 <= k < j && vs[k].vs[0] == vs[j].vs[0] {
      KeyIsThere(vs, k);
    } else {
      assert NoKeyBefore(vs, j);
    }
  }

  /** Reading a map keeps, of all entries with one key, exactly the first. */
  lemma {:induction false} MapKeepsFirst(vs: seq<Val>)
    requires Pairs(vs)
    ensures DistinctKeys(Collect(MapLike, vs))
    ensures forall x :: x in Collect(MapLike, vs) <==> FirstOfKey(vs, x)
    decreases |vs|
  {
    if |vs| > 0 {
      var n := |vs| - 1;
      var front, last := vs[..n], vs[n];
      var kept := Collect(MapLike, front);
      MapKeepsFirst(front);
      assert vs == front + [last];
      var clash := Clashes(MapLike, kept, last);
      assert clash <==> exists j :: 0 <= j < n && front[j].vs[0] == last.vs[0] by {
        ClashIff(front, kept, last);
      }
      forall x ensures x in Collect(MapLike, vs) <==> FirstOfKey(vs, x) {
        FirstOfKeyStep(front, last, x);
      }
    }
  }

  lemma {:induction false} ClashIff(front: seq<Val>, kept: seq<Val>, last: Val)
    requires Pairs(front) && Pairs(kept) && IsPair(last) && forall x :: x in kept <==> FirstOfKey(front, x)
    ensures Clashes(MapLike, kept, last) <==> exists j :: 0 <= j < |front| && front[j].vs[0] == last.vs[0]
  {
    if Clashes(MapLike, kept, last) {
      var i :| 0 <= i < |kept| && Clash(MapLike, kept[i], last);
      assert FirstOfKey(front, kept[i]);
    }
    if j :| 0 <= j < |front| && front[j].vs[0] == last.vs[0] {
      KeyIsThere(front, j);
      var i :| 0 <= i <= j && front[i].vs[0] == front[j].vs[0] && NoKeyBefore(front, i);
      assert FirstOfKey(front, front[i]);
      var m :| 0 <= m < |kept| && kept[m] == front[i];
      assert Clash(MapLike, kept[m], last);
    }
  }

  /** Reading a set keeps every element once, and reading a vector keeps everything. */
  lemma {:induction false} SetKeepsEach(vs: seq<Val>)
    ensures forall x :: x in Collect(SetLike, vs) <==> x in vs
    ensures forall i, j | 0 <= i < j < |Collect(SetLike, vs)| :: Collect(SetLike, vs)[i] != Collect(SetLike, vs)[j]
    ensures Collect(Vector, vs) == vs
    decreases |vs|
  {
    if |vs| > 0 {
      var n := |vs| - 1;
      SetKeepsEach(vs[..n]);
      assert vs == vs[..n] + [vs[n]];
      assert Clashes(SetLike, Collect(SetLike, vs[..n]), vs[n]) <==> vs[n] in vs[..n];
    }
  }
}
