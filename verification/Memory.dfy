/** Memory effects over abstract objects and byte ranges, and when two of them may touch the same byte. */
module Memory {
  import opened CfgErrors

  const I64_MIN: int := -0x8000_0000_0000_0000
  const I64_MAX: int := 0x7FFF_FFFF_FFFF_FFFF
  const USIZE_MAX: nat := 0xFFFF_FFFF_FFFF_FFFF

  datatype MemoryLocation = MemoryLocation(obj: nat, offset: int, byteLen: nat) {
    predicate Valid() {
      I64_MIN <= offset <= I64_MAX && byteLen <= USIZE_MAX
    }

    /** The checked 64-bit end of the range, if there is one. */
    function End(): (r: Option<int>) {
      if byteLen > I64_MAX || offset + byteLen > I64_MAX then None else Some(offset + byteLen)
    }
  }

  datatype MemoryEffect = Exact(location: MemoryLocation) | UnknownObject(obj: nat) | UnknownAll

  predicate ValidEffect(e: MemoryEffect) {
    e.Exact? ==> e.location.Valid()
  }

  /** The client's alias test. */
  predicate EffectsMayAlias(left: MemoryEffect, right: MemoryEffect) {
    match (left, right)
    case (UnknownAll, _) => true
    case (_, UnknownAll) => true
    case (UnknownObject(a), UnknownObject(b)) => a == b
    case (UnknownObject(a), Exact(location)) => a == location.obj
    case (Exact(location), UnknownObject(b)) => location.obj == b
    case (Exact(a), Exact(b)) =>
      if a.obj != b.obj then false
      else
        match (a.End(), b.End())
        case (Some(aEnd), Some(bEnd)) => a.offset < bEnd && b.offset < aEnd
        case _ => true
  }

  /** An empty range touches nothing, although the alias test may still report it. */
  predicate EmptyRange(e: MemoryEffect) {
    e.Exact? && e.location.byteLen == 0
  }

  /** The bytes an effect may touch. A range without a 64-bit end may touch the whole object. */
  predicate Touches(e: MemoryEffect, obj: nat, x: int) {
    match e
    case UnknownAll => true
    case UnknownObject(o) => o == obj
    case Exact(location) =>
      && location.byteLen > 0 && location.obj == obj
      && (location.End().Some? ==> location.offset <= x < location.End().value)
  }

  /** For effects that are not empty, the alias test is exactly a shared byte. */
  lemma AliasIsSharedByte(a: MemoryEffect, b: MemoryEffect)
    requires !EmptyRange(a) && !EmptyRange(b)
    ensures EffectsMayAlias(a, b) <==> exists o: nat, x: int :: Touches(a, o, x) && Touches(b, o, x)
  {
    if EffectsMayAlias(a, b) {
      var o, x := Witness(a), Lowest(a);
      var o', x' := Witness(b), Lowest(b);
      if a.UnknownAll? {
        assert Touches(a, o', x') && Touches(b, o', x');
      } else if b.UnknownAll? || b.UnknownObject? || b.location.End().None? {
        assert Touches(a, o, x) && Touches(b, o, x);
      } else if a.UnknownObject? || a.location.End().None? || x <= x' {
        assert Touches(a, o', x') && Touches(b, o', x');
      } else {
        assert Touches(a, o, x) && Touches(b, o, x);
      }
    }
  }

  function Witness(e: MemoryEffect): nat {
    if e.Exact? then e.location.obj else if e.UnknownObject? then e.obj else 0
  }

  function Lowest(e: MemoryEffect): int {
    if e.Exact? then e.location.offset else 0
  }
}
