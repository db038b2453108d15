// A MAVLink enum as declared in a dialect: named entries with 64-bit
// values, optionally a bitmask whose entries are flags. Lookups are linear
// searches over the declared entries, first match wins.

module Enums {
  import opened Bytes

  const TWO64: int := 0x1_0000_0000_0000_0000

  /** An entry; its name is held as the UTF-8 bytes of the Java string, its value is a Java long. */
  datatype EnumEntry = EnumEntry(name: seq<uint8>, value: int)

  datatype EnumDefinition = EnumDefinition(name: string, bitmask: bool, entries: seq<EnumEntry>)

  /** The two's-complement bits of a Java long. */
  function LongBits(v: int): bv64
  {
    (v % TWO64) as bv64
  }

  /** Every bit of `b` is set in `m`. */
  predicate Within(m: bv64, b: bv64)
  {
    m & b == b
  }

  /** `(mask & value) == value` on longs. */
  predicate IsSubmask(mask: int, value: int)
  {
    Within(LongBits(mask), LongBits(value))
  }

  /** Index of the first entry called `name`, or -1. */
  function FirstNamed(entries: seq<EnumEntry>, name: seq<uint8>): (r: int)
    ensures -1 <= r < |entries|
    ensures r == -1 <==> forall i :: 0 <= i < |entries| ==> entries[i].name != name
    ensures r >= 0 ==> entries[r].name == name && forall j :: 0 <= j < r ==> entries[j].name != name
  {
    if |entries| == 0 then -1
    else if entries[0].name == name then 0
    else
      var rest := FirstNamed(entries[1..], name);
      if rest == -1 then -1 else rest + 1
  }

  /** Index of the first entry whose value is `value`, or -1. */
  function FirstValued(entries: seq<EnumEntry>, value: int): (r: int)
    ensures -1 <= r < |entries|
    ensures r == -1 <==> forall i :: 0 <= i < |entries| ==> entries[i].value != value
    ensures r >= 0 ==> entries[r].value == value && forall j :: 0 <= j < r ==> entries[j].value != value
  {
    if |entries| == 0 then -1
    else if entries[0].value == value then 0
    else
      var rest := FirstValued(entries[1..], value);
      if rest == -1 then -1 else rest + 1
  }

  /** `getByName`: no entry for a null name; otherwise the first entry with that name. */
  function GetByName(e: EnumDefinition, name: Option<seq<uint8>>): (r: Option<EnumEntry>)
    ensures r.Some? <==> name.Some? && exists i :: 0 <= i < |e.entries| && e.entries[i].name == name.value
    ensures r.Some? ==> r.value.name == name.value
                        && exists i :: 0 <= i < |e.entries| && e.entries[i] == r.value
                                       && forall j :: 0 <= j < i ==> e.entries[j].name != name.value
  {
    if name.None? then None
    else
      var i := FirstNamed(e.entries, name.value);
      if i == -1 then None else Some(e.entries[i])
  }

  /** `hasEntry`: some entry carries this (non-null) name. */
  predicate HasEntry(e: EnumDefinition, name: Option<seq<uint8>>)
  {
    GetByName(e, name).Some?
  }

  lemma HasEntryIff(e: EnumDefinition, name: Option<seq<uint8>>)
    ensures HasEntry(e, name) <==> name.Some? && exists entry :: entry in e.entries && entry.name == name.value
  {
    if name.Some? && exists entry :: entry in e.entries && entry.name == name.value {
      var entry :| entry in e.entries && entry.name == name.value;
      var i :| 0 <= i < |e.entries| && e.entries[i] == entry;
    }
  }

  /** `getByValue`: the first entry with an equal value. */
  function GetByValue(e: EnumDefinition, value: int): (r: Option<EnumEntry>)
    ensures r.Some? <==> exists i :: 0 <= i < |e.entries| && e.entries[i].value == value
    ensures r.Some? ==> r.value.value == value
                        && exists i :: 0 <= i < |e.entries| && e.entries[i] == r.value
                                       && forall j :: 0 <= j < i ==> e.entries[j].value != value
  {
    var i := FirstValued(e.entries, value);
    if i == -1 then None else Some(e.entries[i])
  }

  /** The entries whose value is a submask of `mask`, in declaration order. */
  function Submasks(entries: seq<EnumEntry>, mask: int): (r: seq<EnumEntry>)
    ensures |r| <= |entries|
    ensures forall x :: x in r <==> x in entries && IsSubmask(mask, x.value)
  {
    if |entries| == 0 then []
    else
      var rest := Submasks(entries[1..], mask);
      assert entries == [entries[0]] + entries[1..];
      if IsSubmask(mask, entries[0].value) then [entries[0]] + rest else rest
  }

  /** `getByBitmask`: nothing for a plain enum or a zero mask, otherwise every flag the mask covers. */
  function GetByBitmask(e: EnumDefinition, mask: int): (r: seq<EnumEntry>)
    ensures !e.bitmask || mask == 0 ==> r == []
    ensures e.bitmask && mask != 0 ==> forall x :: x in r <==> x in e.entries && IsSubmask(mask, x.value)
  {
    if !e.bitmask || mask == 0 then [] else Submasks(e.entries, mask)
  }

  /** Filtering commutes with concatenation, so the flags come back in declaration order. */
  lemma {:induction false} SubmasksAppend(a: seq<EnumEntry>, b: seq<EnumEntry>, mask: int)
    ensures Submasks(a + b, mask) == Submasks(a, mask) + Submasks(b, mask)
  {
    if |a| > 0 {
      assert (a + b)[1..] == a[1..] + b;
      SubmasksAppend(a[1..], b, mask);
    } else {
      assert a + b == b;
    }
  }

  /** The OR of the given entries' values. */
  function OrAll(entries: seq<EnumEntry>): bv64
  {
    if |entries| == 0 then 0 else OrAll(entries[..|entries| - 1]) | LongBits(entries[|entries| - 1].value)
  }

  /** OR-ing together flags that each lie within `mask` stays within `mask`. */
  lemma {:induction false} OrAllWithin(entries: seq<EnumEntry>, mask: int)
    requires forall i :: 0 <= i < |entries| ==> IsSubmask(mask, entries[i].value)
    ensures Within(LongBits(mask), OrAll(entries))
  {
    if |entries| > 0 {
      var front := entries[..|entries| - 1];
      OrAllWithin(front, mask);
      OrWithin(LongBits(mask), OrAll(front), LongBits(entries[|entries| - 1].value));
    }
  }

  lemma OrWithin(m: bv64, a: bv64, b: bv64)
    requires Within(m, a) && Within(m, b)
    ensures Within(m, a | b)
  {
  }

  /** The flags `getByBitmask` returns, OR-ed back together, never exceed the mask. */
  lemma BitmaskWithinMask(e: EnumDefinition, mask: int)
    ensures Within(LongBits(mask), OrAll(GetByBitmask(e, mask)))
  {
    var r := GetByBitmask(e, mask);
    if !e.bitmask || mask == 0 {
      assert OrAll(r) == 0;
    } else {
      assert forall i :: 0 <= i < |r| ==> r[i] in r;
      OrAllWithin(r, mask);
    }
  }
}
