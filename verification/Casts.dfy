/** Upcasts over the class hierarchy (libcxxrt/dynamic_cast.cpp, include/libcxxrt/typeinfo.h; section 2.9.5
    of the Itanium C++ ABI). Type information is a finite hierarchy; `==` on it stands for the identity of
    `type_info` objects, told apart by their ids. */
module Casts {

  datatype Class =
    | Plain(id: nat)                              // __class_type_info: no bases
    | Single(id: nat, base: Class)                // __si_class_type_info: one base, at offset 0
    | Multiple(id: nat, bases: seq<Base>)         // __vmi_class_type_info

  /** `__base_class_type_info`: flags in the low eight bits, the signed offset above them. */
  datatype Base = Base(info: Class, offsetFlags: int) {
    function Offset(): int { offsetFlags / 256 }
    predicate IsVirtual() { offsetFlags % 2 == 1 }
    predicate IsPublic() { offsetFlags / 2 % 2 == 1 }
  }

  type Memory = int -> int

  function Wrap(a: int): int { a % 0x1_0000_0000 }

  /** The address of a base subobject of the object at `obj`: for a virtual base the offset is itself read
      from the object's virtual table. */
  function BaseAddress(mem: Memory, obj: int, b: Base): int {
    Wrap(obj + if b.IsVirtual() then mem(Wrap(mem(obj) + b.Offset())) else b.Offset())
  }

  // ---------------------------------------------------------------- paths

  /** A path goes from a class to one of its bases at each step. */
  predicate IsPath(c: Class, path: seq<nat>)
    decreases path
  {
    path == [] ||
    match c
    case Plain(_) => false
    case Single(_, base) => path[0] == 0 && IsPath(base, path[1..])
    case Multiple(_, bases) => path[0] < |bases| && IsPath(bases[path[0]].info, path[1..])
  }

  function Ancestor(c: Class, path: seq<nat>): Class
    requires IsPath(c, path)
    decreases path
  {
    if path == [] then c
    else match c
      case Single(_, base) => Ancestor(base, path[1..])
      case Multiple(_, bases) => Ancestor(bases[path[0]].info, path[1..])
  }

  /** The address of the subobject a path names, in the object at `obj`. */
  function AddressOf(c: Class, path: seq<nat>, mem: Memory, obj: int): int
    requires IsPath(c, path)
    decreases path
  {
    if path == [] then obj
    else match c
      case Single(_, base) => AddressOf(base, path[1..], mem, obj)
      case Multiple(_, bases) => AddressOf(bases[path[0]].info, path[1..], mem, BaseAddress(mem, obj, bases[path[0]]))
  }

  ghost predicate Leads(c: Class, path: seq<nat>, target: Class) {
    IsPath(c, path) && Ancestor(c, path) == target
  }

  ghost predicate Reaches(c: Class, target: Class) {
    exists path :: Leads(c, path, target)
  }

  // ---------------------------------------------------------------- the search

  datatype Option<T> = None | Some(value: T)

  /** The path the depth-first search takes. */
  function FirstPath(c: Class, target: Class): Option<seq<nat>>
    decreases c, if c.Multiple? then |c.bases| + 2 else 0
  {
    if c == target then Some([])
    else match c
      case Plain(_) => None
      case Single(_, base) =>
        (match FirstPath(base, target)
         case None => None
         case Some(path) => Some([0] + path))
      case Multiple(_, bases) => FirstFrom(c, 0, target)
  }

  function FirstFrom(c: Class, i: nat, target: Class): Option<seq<nat>>
    requires c.Multiple? && i <= |c.bases|
    decreases c, |c.bases| - i + 1
  {
    if i == |c.bases| then None
    else match FirstPath(c.bases[i].info, target)
      case Some(path) => Some([i] + path)
      case None => FirstFrom(c, i + 1, target)
  }

  ghost predicate Sound(c: Class, target: Class, r: Option<seq<nat>>) {
    r.Some? ==> Leads(c, r.value, target)
  }

  lemma {:induction false} FirstPathLeads(c: Class, target: Class)
    ensures Sound(c, target, FirstPath(c, target))
    decreases c, if c.Multiple? then |c.bases| + 2 else 0
  {
    if c != target {
      match c
      case Plain(_) =>
      case Single(_, base) => FirstPathLeads(base, target);
      case Multiple(_, bases) => FirstFromLeads(c, 0, target);
    }
  }

  lemma {:induction false} FirstFromLeads(c: Class, i: nat, target: Class)
    requires c.Multiple? && i <= |c.bases|
    ensures Sound(c, target, FirstFrom(c, i, target))
    decreases c, |c.bases| - i + 1
  {
    if i < |c.bases| {
      FirstPathLeads(c.bases[i].info, target);
      FirstFromLeads(c, i + 1, target);
    }
  }

  /** The order in which a depth-first search meets paths. */
  predicate NotAfter(p: seq<nat>, q: seq<nat>) {
    p == [] || (q != [] && (p[0] < q[0] || (p[0] == q[0] && NotAfter(p[1..], q[1..]))))
  }

  /** Of two paths only one comes first. */
  lemma {:induction false} OrderIsStrict(p: seq<nat>, q: seq<nat>)
    requires NotAfter(p, q) && NotAfter(q, p)
    ensures p == q
    decreases |p|
  {
    if p != [] && q != [] {
      OrderIsStrict(p[1..], q[1..]);
      assert p == [p[0]] + p[1..] && q == [q[0]] + q[1..];
    }
  }

  /** Every path to the target is found, or comes after the one found. */
  lemma {:induction false} FirstPathIsFirst(c: Class, target: Class, path: seq<nat>)
    requires Leads(c, path, target)
    ensures FirstPath(c, target).Some? && NotAfter(FirstPath(c, target).value, path)
    decreases c, if c.Multiple? then |c.bases| + 2 else 0
  {
    if c != target {
      match c
      case Single(_, base) => FirstPathIsFirst(base, target, path[1..]);
      case Multiple(_, bases) => FirstFromIsFirst(c, 0, target, path);
    }
  }

  lemma {:induction false} FirstFromIsFirst(c: Class, i: nat, target: Class, path: seq<nat>)
    requires c.Multiple? && c != target && i <= |c.bases|
    requires Leads(c, path, target) && i <= path[0]
    ensures FirstFrom(c, i, target).Some? && NotAfter(FirstFrom(c, i, target).value, path)
    decreases c, |c.bases| - i + 1
  {
    if i == path[0] {
      FirstPathIsFirst(c.bases[i].info, target, path[1..]);
    } else if FirstPath(c.bases[i].info, target).None? {
      FirstFromIsFirst(c, i + 1, target, path);
    }
  }

  /** The upcast succeeds exactly when the target is reachable, and takes the first path there. */
  lemma UpcastIffReachable(c: Class, target: Class)
    ensures FirstPath(c, target).Some? <==> Reaches(c, target)
    ensures FirstPath(c, target).Some? ==>
              Leads(c, FirstPath(c, target).value, target)
              && forall path :: Leads(c, path, target) ==> NotAfter(FirstPath(c, target).value, path)
  {
    FirstPathLeads(c, target);
    forall path | Leads(c, path, target)
      ensures FirstPath(c, target).Some? && NotAfter(FirstPath(c, target).value, path)
    {
      FirstPathIsFirst(c, target, path);
    }
  }

  /** What an upcast of `obj` yields: the address of the target's subobject along the first path. */
  function Upcast(c: Class, target: Class, mem: Memory, obj: int): Option<int> {
    match FirstPath(c, target)
    case None => None
    case Some(path) =>
      FirstPathLeads(c, target);
      Some(AddressOf(c, path, mem, obj))
  }

  /** When the target has one address in the object, whatever path leads to it, that is the result. */
  lemma UniqueAddressIsResult(c: Class, target: Class, mem: Memory, obj: int, path: seq<nat>)
    requires Leads(c, path, target)
    requires OneAddress(c, target, mem, obj)
    ensures Upcast(c, target, mem, obj) == Some(AddressOf(c, path, mem, obj))
  {
    UpcastIffReachable(c, target);
  }

  // ---------------------------------------------------------------- where a base is

  lemma {:induction false} FirstFromSkips(c: Class, k: nat, i: nat, target: Class)
    requires c.Multiple? && k <= i < |c.bases| && c.bases[i].info == target
    requires forall j :: k <= j < i ==> !Reaches(c.bases[j].info, target)
    ensures FirstFrom(c, k, target) == Some([i])
    decreases i - k
  {
    if k < i {
      UpcastIffReachable(c.bases[k].info, target);
      FirstFromSkips(c, k + 1, i, target);
    } else {
      var none: seq<nat> := [];
      assert [i] + none == [i];
    }
  }

  /** A direct base, the first way to the target, on words and bits. Flag bit 0 clear: it is at the object's
      address plus the signed high part of the flags word. Bit 0 set, a virtual base: it is at the object's
      address plus the word that the object's virtual table holds at that high part. */
  lemma DirectBaseAt(c: Class, i: nat, target: Class, mem: Memory, obj: int)
    requires c.Multiple? && c != target && i < |c.bases| && c.bases[i].info == target
    requires forall j :: 0 <= j < i ==> !Reaches(c.bases[j].info, target)
    ensures var flags := c.bases[i].offsetFlags;
            && (flags % 2 == 0 ==> Upcast(c, target, mem, obj) == Some((obj + flags / 256) % 0x1_0000_0000))
            && (flags % 2 == 1 ==>
                  Upcast(c, target, mem, obj)
                  == Some((obj + mem((mem(obj) + flags / 256) % 0x1_0000_0000)) % 0x1_0000_0000))
  {
    FirstFromSkips(c, 0, i, target);
    FirstFromSkips(c, i, i, target);
    hide BaseAddress;
    MultipleUpcast(c, i, target, mem, obj);
    BaseWords(mem, obj, c.bases[i]);
  }

  lemma BaseWords(mem: Memory, obj: int, b: Base)
    ensures b.offsetFlags % 2 == 0 ==> BaseAddress(mem, obj, b) == (obj + b.offsetFlags / 256) % 0x1_0000_0000
    ensures b.offsetFlags % 2 == 1 ==>
              BaseAddress(mem, obj, b) == (obj + mem((mem(obj) + b.offsetFlags / 256) % 0x1_0000_0000)) % 0x1_0000_0000
  {}

  /** A virtual base whose offset, 8, is 12 below the virtual table's address. */
  lemma VirtualBaseFound(mem: Memory)
    requires mem(0x1000) == 0x5000 && mem(0x4FF4) == 8
    ensures Upcast(Multiple(2, [Base(Plain(1), -3069)]), Plain(1), mem, 0x1000) == Some(0x1008)
  {
    DirectBaseAt(Multiple(2, [Base(Plain(1), -3069)]), 0, Plain(1), mem, 0x1000);
  }

  // ---------------------------------------------------------------- the functions themselves

  /** A `void *` variable whose address is passed. */
  class Slot {
    var ptr: int

    constructor (p: int)
      ensures ptr == p
    {
      ptr := p;
    }
  }

  /** `__do_upcast` of the three class kinds: the pointer is adjusted on success and left alone on failure. */
  method DoUpcast(c: Class, target: Class, mem: Memory, thrownObject: Slot) returns (ok: bool)
    modifies thrownObject
    ensures ok == Upcast(c, target, mem, old(thrownObject.ptr)).Some?
    ensures thrownObject.ptr == if ok then Upcast(c, target, mem, old(thrownObject.ptr)).value else old(thrownObject.ptr)
    decreases c
  {
    match c
    case Plain(_) => ok := c == target;
    case Single(_, base) =>
      if c == target { return true; }
      ok := DoUpcast(base, target, mem, thrownObject);
      SingleUpcast(c, target, mem, old(thrownObject.ptr));
    case Multiple(_, bases) =>
      if c == target { return true; }
      var i := 0;
      while i < |bases|
        invariant 0 <= i <= |bases| && thrownObject.ptr == old(thrownObject.ptr)
        invariant FirstPath(c, target) == FirstFrom(c, i, target)
      {
        var obj := thrownObject.ptr;
        var cast := new Slot(BaseAddress(mem, obj, bases[i]));
        ok := bases[i].info == target;
        if !ok { ok := DoUpcast(bases[i].info, target, mem, cast); }
        if ok {
          thrownObject.ptr := cast.ptr;
          MultipleUpcast(c, i, target, mem, obj);
          return;
        }
        i := i + 1;
      }
      ok := false;
  }

  lemma SingleUpcast(c: Class, target: Class, mem: Memory, obj: int)
    requires c.Single? && c != target
    ensures Upcast(c, target, mem, obj) == Upcast(c.base, target, mem, obj)
  {
    FirstPathLeads(c, target);
    FirstPathLeads(c.base, target);
    match FirstPath(c.base, target)
    case None =>
    case Some(path) => assert ([0] + path)[1..] == path;
  }

  lemma MultipleUpcast(c: Class, i: nat, target: Class, mem: Memory, obj: int)
    requires c.Multiple? && c != target && i < |c.bases| && FirstPath(c, target) == FirstFrom(c, i, target)
    requires FirstPath(c.bases[i].info, target).Some?
    ensures Upcast(c, target, mem, obj) == Upcast(c.bases[i].info, target, mem, BaseAddress(mem, obj, c.bases[i]))
  {
    var path := FirstPath(c.bases[i].info, target).value;
    FirstPathLeads(c, target);
    FirstPathLeads(c.bases[i].info, target);
    assert ([i] + path)[1..] == path;
  }

  /** `cast_to` of the three class kinds; 0 is the null pointer it fails with. */
  method CastTo(c: Class, obj: int, other: Class, mem: Memory) returns (r: int)
    ensures r == CastResult(c, other, mem, obj)
    decreases c
  {
    match c
    case Plain(_) =>
      if c == other { return obj; }
      r := 0;
    case Single(_, base) =>
      if c == other { return obj; }
      SingleUpcast(c, other, mem, obj);
      r := CastTo(base, obj, other, mem);
    case Multiple(_, _) =>
      var slot := new Slot(obj);
      var ok := DoUpcast(c, other, mem, slot);
      if ok { return slot.ptr; }
      r := 0;
  }

  /** What `cast_to` makes of an object: 0 for no base. */
  function CastResult(c: Class, other: Class, mem: Memory, obj: int): int {
    match Upcast(c, other, mem, obj) case None => 0 case Some(p) => p
  }

  ghost predicate NoneAtNull(c: Class, mem: Memory, obj: int) {
    forall path :: IsPath(c, path) ==> AddressOf(c, path, mem, obj) != 0
  }

  /** `cast_to` answers null exactly when the target is not a base, provided no subobject sits at null. */
  lemma NullMeansNotABase(c: Class, other: Class, mem: Memory, obj: int)
    requires NoneAtNull(c, mem, obj)
    ensures CastResult(c, other, mem, obj) == 0 <==> !Reaches(c, other)
    ensures Reaches(c, other) ==> exists path :: Leads(c, path, other) && CastResult(c, other, mem, obj) == AddressOf(c, path, mem, obj)
  {
    UpcastIffReachable(c, other);
  }

  // ---------------------------------------------------------------- dynamic_cast

  /** The header before the virtual table of the subobject at `sub` says that it is part of an object of
      class c at `whole`. */
  predicate Names(mem: Memory, typeAt: int -> Class, sub: int, whole: int, c: Class) {
    (sub + mem((mem(sub) - 8) % 0x1_0000_0000)) % 0x1_0000_0000 == whole
    && typeAt(mem((mem(sub) - 4) % 0x1_0000_0000)) == c
  }

  /** The two words below the table at 0x5000: how far to the whole object, and what it is. */
  lemma HeaderWords(mem: Memory, typeAt: int -> Class)
    requires mem(0x1000) == 0x5000 && mem(0x4FF8) == -8 && mem(0x4FFC) == 77
    ensures Names(mem, typeAt, 0x1000, 0xFF8, typeAt(77))
  {}

  /** An object of class c whose subobjects all have such headers, and none of which sits at null. */
  ghost predicate IsObject(c: Class, mem: Memory, typeAt: int -> Class, whole: int) {
    NoneAtNull(c, mem, whole)
    && forall path :: IsPath(c, path) ==> Names(mem, typeAt, AddressOf(c, path, mem, whole), whole, c)
  }

  lemma WrapIs(a: int)
    ensures Wrap(a) == a % 0x1_0000_0000
  {}

  lemma HeaderAt(table: int)
    ensures Wrap(table - 8) == (table - 8) % 0x1_0000_0000 && Wrap(Wrap(table - 8) + 4) == (table - 4) % 0x1_0000_0000
  {}

  /** An object without bases is one as soon as its header names it. */
  lemma PlainObject(id: nat, mem: Memory, typeAt: int -> Class, whole: int)
    requires whole != 0 && Names(mem, typeAt, whole, whole, Plain(id))
    ensures IsObject(Plain(id), mem, typeAt, whole)
  {}

  /** r is what a cast of the subobject at `sub` must give, whatever object it is part of. */
  ghost predicate CastOf(sub: int, dst: Class, mem: Memory, typeAt: int -> Class, r: int) {
    forall c, whole :: Names(mem, typeAt, sub, whole, c) ==> r == CastResult(c, dst, mem, whole)
  }

  /** `__dynamic_cast`: the virtual table says where the whole object begins and what it is; the static type
      and the hint are not consulted. */
  method DynamicCast(sub: int, src: Class, dst: Class, src2dst: int, mem: Memory, typeAt: int -> Class) returns (r: int)
    ensures CastOf(sub, dst, mem, typeAt, r)
  {
    hide Wrap;
    HeaderAt(mem(sub));
    WrapIs(sub + mem((mem(sub) - 8) % 0x1_0000_0000));
    var vtable := mem(sub);
    var header := Wrap(vtable - 8);
    var leaf := Wrap(sub + mem(header));
    r := CastTo(typeAt(mem(Wrap(header + 4))), leaf, dst, mem);
  }

  /** Casts within one object: from every subobject the answer is the same; it is null exactly when the
      target is no base of the whole object's class; a cast down to that class undoes any upcast; and a
      target with one address in the object is found there, also across the hierarchy. */
  lemma CastsAgree(c: Class, dst: Class, mem: Memory, typeAt: int -> Class, whole: int, p: seq<nat>, q: seq<nat>, r: int, t: int)
    requires IsObject(c, mem, typeAt, whole) && IsPath(c, p) && IsPath(c, q)
    requires CastOf(AddressOf(c, p, mem, whole), dst, mem, typeAt, r)
    requires CastOf(AddressOf(c, q, mem, whole), dst, mem, typeAt, t)
    ensures r == t && (r == 0 <==> !Reaches(c, dst))
    ensures dst == c ==> r == whole
    ensures forall path :: Leads(c, path, dst) && OneAddress(c, dst, mem, whole) ==> r == AddressOf(c, path, mem, whole)
  {
    assert Names(mem, typeAt, AddressOf(c, p, mem, whole), whole, c);
    assert Names(mem, typeAt, AddressOf(c, q, mem, whole), whole, c);
    NullMeansNotABase(c, dst, mem, whole);
    forall path | Leads(c, path, dst) && OneAddress(c, dst, mem, whole) ensures r == AddressOf(c, path, mem, whole) {
      UniqueAddressIsResult(c, dst, mem, whole, path);
    }
  }

  // ---------------------------------------------------------------- the ABI's rule

  /** The target has one address in the object, whatever path leads to it: it is not ambiguous. */
  ghost predicate OneAddress(c: Class, target: Class, mem: Memory, obj: int) {
    forall p, q :: Leads(c, p, target) && Leads(c, q, target) ==> AddressOf(c, p, mem, obj) == AddressOf(c, q, mem, obj)
  }

  /** A target that one path leads to is not ambiguous, nor is one whose paths all end at the same address. */
  lemma OneWay(c: Class, target: Class, mem: Memory, obj: int, a: int)
    requires forall p :: Leads(c, p, target) ==> AddressOf(c, p, mem, obj) == a
    ensures OneAddress(c, target, mem, obj)
  {}

  /** Every step goes to a public base; the base of a single-inheritance class always is. */
  predicate IsPublic(c: Class, path: seq<nat>)
    requires IsPath(c, path)
    decreases path
  {
    path == [] ||
    match c
    case Single(_, base) => IsPublic(base, path[1..])
    case Multiple(_, bases) => bases[path[0]].IsPublic() && IsPublic(bases[path[0]].info, path[1..])
  }

  ghost predicate PubliclyReaches(c: Class, target: Class) {
    exists path :: Leads(c, path, target) && IsPublic(c, path)
  }

  /** A conversion to a base is allowed when the base is public and not ambiguous. */
  ghost predicate Allowed(c: Class, target: Class, mem: Memory, obj: int, r: Option<int>) {
    if PubliclyReaches(c, target) && OneAddress(c, target, mem, obj)
    then exists path :: Leads(c, path, target) && r == Some(AddressOf(c, path, mem, obj))
    else r == None
  }

  /** The upcast obeys that rule exactly for targets that are no base at all, or a public unambiguous one: it
      looks at neither. */
  lemma UpcastIsAllowedIff(c: Class, target: Class, mem: Memory, obj: int)
    ensures Allowed(c, target, mem, obj, Upcast(c, target, mem, obj))
            <==> (Reaches(c, target) ==> PubliclyReaches(c, target) && OneAddress(c, target, mem, obj))
  {
    UpcastIffReachable(c, target);
  }

  /** Flag bit 1 is what makes a base public. */
  lemma PublicBase(id: nat, flags: int, mem: Memory, obj: int)
    ensures PubliclyReaches(Multiple(id, [Base(Plain(id + 1), flags)]), Plain(id + 1)) <==> flags % 4 >= 2
  {
    var a := Plain(id + 1);
    var c := Multiple(id, [Base(a, flags)]);
    forall path | Leads(c, path, a) ensures IsPublic(c, path) <==> flags % 4 >= 2 {
      assert path != [] && path[0] == 0 && IsPath(a, path[1..]);
    }
    var way: seq<nat> := [0];
    assert way[1..] == [] && Leads(c, way, a);
  }

  /** A base that is not public is found. */
  lemma PrivateBaseFound(mem: Memory)
    ensures var a := Plain(1);
            var hidden := Multiple(2, [Base(a, 0x400)]);
            && Upcast(hidden, a, mem, 0x1000) == Some(0x1004) && !PubliclyReaches(hidden, a)
  {
    var a := Plain(1);
    var hidden := Multiple(2, [Base(a, 0x400)]);
    assert FirstPath(a, a) == Some([]);
    assert FirstFrom(hidden, 0, a) == Some([0] + []);
    assert AddressOf(hidden, [0], mem, 0x1000) == AddressOf(a, [0][1..], mem, 0x1004);
    forall path | Leads(hidden, path, a) ensures !IsPublic(hidden, path) { assert path != []; }
  }

  /** Of a base that is twice in the object, the first is found. */
  lemma AmbiguousBaseFound(mem: Memory)
    ensures var a := Plain(1);
            var twice := Multiple(4, [Base(Single(2, a), 0x402), Base(Single(3, a), 0x802)]);
            && Upcast(twice, a, mem, 0x1000) == Some(0x1004) && !OneAddress(twice, a, mem, 0x1000)
  {
    var a := Plain(1);
    var b, c := Single(2, a), Single(3, a);
    var twice := Multiple(4, [Base(b, 0x402), Base(c, 0x802)]);
    assert FirstPath(a, a) == Some([]);
    assert FirstPath(b, a) == Some([0] + []) && FirstPath(c, a) == Some([0] + []);
    assert twice.bases[0].info == b && twice.bases[1].info == c;
    var step: seq<nat> := [0];
    assert step + [] == step && FirstPath(b, a) == Some(step);
    assert FirstFrom(twice, 0, a) == Some([0] + [0]);
    assert [0, 0][1..] == [0] && [1, 0][1..] == [0] && [0][1..] == [];
    assert IsPath(a, []) && IsPath(b, [0]) && IsPath(c, [0]);
    assert AddressOf(b, [0], mem, 0x1004) == 0x1004 && AddressOf(c, [0], mem, 0x1008) == 0x1008;
    assert AddressOf(twice, [0, 0], mem, 0x1000) == AddressOf(b, [0], mem, 0x1004);
    assert AddressOf(twice, [1, 0], mem, 0x1000) == AddressOf(c, [0], mem, 0x1008);
    assert Leads(twice, [0, 0], a) && Leads(twice, [1, 0], a);
  }
}
