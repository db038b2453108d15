// Resolving the value given for an enum-typed field into the integer(s) the
// wire carries: numbers pass as their int value, names map to their entry's
// value, and arrays of flags of a bitmask enum become one OR-ed int each.

module EnumResolver {
  import opened Bytes
  import opened Messages
  import opened Enums
  import opened Registry
  import opened Values

  /** `Number.longValue()` of an integral number: its low 64 bits as two's complement. */
  function LongValue(n: int): (r: int)
    ensures -TWO64 / 2 <= r < TWO64 / 2
    ensures (r - n) % TWO64 == 0
  {
    var low := n % TWO64;
    if low >= TWO64 / 2 then low - TWO64 else low
  }

  /** The int a bitmask number resolves to: the OR of every flag its mask covers, cut to an int. */
  function MaskInt(e: EnumDefinition, n: int): (r: int)
    ensures INT_MIN <= r <= INT_MAX
  {
    IntValue(OrAll(GetByBitmask(e, LongValue(n))) as int)
  }

  /** A non-bitmask array keeps its Number elements, as ints, and drops everything else. */
  function NumbersOnly(items: seq<Option<Value>>): (r: seq<Option<Value>>)
    ensures |r| <= |items|
    ensures forall k :: 0 <= k < |r| ==> r[k].Some? && r[k].value.Num? && INT_MIN <= r[k].value.n <= INT_MAX
  {
    if |items| == 0 then []
    else
      var front := NumbersOnly(items[..|items| - 1]);
      match items[|items| - 1]
      case Some(Num(n)) => front + [Some(Num(IntValue(n)))]
      case _ => front
  }

  /** One element of a bitmask array: a number gives its covered flags, a name its entry's value. */
  function BitmaskElement(e: EnumDefinition, element: Option<Value>): (r: Result<int>)
    ensures r.Ok? ==> INT_MIN <= r.value <= INT_MAX
    ensures r.Ok? <==> (element.Some? && element.value.Num?) || (element.Some? && element.value.Text? && HasEntry(e, Some(element.value.utf8)))
  {
    match element
    case Some(Num(n)) => Ok(MaskInt(e, n))
    case Some(Text(name)) =>
      (match GetByName(e, Some(name))
       case None => Err("Unknown enum value")
       case Some(entry) => Ok(IntValue(entry.value)))
    case _ => Err("Bitmask enum expects string values")
  }

  /** A bitmask array: one int per element, or the first element's error. */
  function BitmaskItems(e: EnumDefinition, elements: seq<Option<Value>>): (r: Result<seq<Option<Value>>>)
    ensures r.Ok? <==> forall k :: 0 <= k < |elements| ==> BitmaskElement(e, elements[k]).Ok?
    ensures r.Ok? ==> |r.value| == |elements|
                      && forall k :: 0 <= k < |elements| ==> r.value[k] == Some(Num(BitmaskElement(e, elements[k]).value))
  {
    if |elements| == 0 then Ok([])
    else
      var front := elements[..|elements| - 1];
      assert forall k :: 0 <= k < |front| ==> front[k] == elements[k];
      match BitmaskItems(e, front)
      case Err(msg) => Err(msg)
      case Ok(items) =>
        match BitmaskElement(e, elements[|elements| - 1])
        case Err(msg) => Err(msg)
        case Ok(mask) => Ok(items + [Some(Num(mask))])
  }

  /** `resolveEnumValue`, as a function of the registered enums, the field and the value. */
  function Resolution(enumsByName: map<string, EnumDefinition>, field: FieldDefinition, value: Option<Value>): Result<Option<Value>>
  {
    if field.enumName.None? || |field.enumName.value| == 0 then Ok(value)
    else if value.None? then Err("Enum field cannot be null")
    else if field.enumName.value !in enumsByName then Err("Enum not registered")
    else
      var e := enumsByName[field.enumName.value];
      match value.value
      case Num(n) => Ok(Some(Num(IntValue(n))))
      case Text(s) =>
        (match GetByName(e, Some(s))
         case None => Err("Unknown enum value")
         case Some(entry) => Ok(Some(Num(IntValue(entry.value)))))
      case Elements(arr) =>
        if !e.bitmask then Ok(Some(Items(NumbersOnly(arr))))
        else
          (match BitmaskItems(e, arr)
           case Err(msg) => Err(msg)
           case Ok(items) => Ok(Some(Items(items))))
      case _ => Err("Unsupported enum value type")
  }

  /** `resolveEnumValue`: type dispatch, with loops for the two array forms. */
  method ResolveEnumValue(registry: MessageRegistry, field: FieldDefinition, value: Option<Value>) returns (r: Result<Option<Value>>)
    ensures r == Resolution(registry.enumsByName, field, value)
  {
    var enumName := field.enumName;
    if enumName.None? || |enumName.value| == 0 {
      return Ok(value);
    }
    if value.None? {
      return Err("Enum field cannot be null");
    }
    if enumName.value !in registry.enumsByName {
      return Err("Enum not registered");
    }
    var enumDef := registry.enumsByName[enumName.value];
    match value.value {
      case Num(n) =>
        return Ok(Some(Num(IntValue(n))));
      case Text(s) =>
        var entry := GetByName(enumDef, Some(s));
        if entry.None? {
          return Err("Unknown enum value");
        }
        return Ok(Some(Num(IntValue(entry.value.value))));
      case Elements(arr) =>
        if !enumDef.bitmask {
          var res := CollectNumbers(arr);
          return Ok(Some(Items(res)));
        }
        var items := ResolveBitmaskElements(enumDef, arr);
        match items {
          case Err(msg) => return Err(msg);
          case Ok(res) => return Ok(Some(Items(res)));
        }
      case _ =>
        return Err("Unsupported enum value type");
    }
  }

  /** The non-bitmask array loop: each Number element's int value, in order. */
  method CollectNumbers(arr: seq<Option<Value>>) returns (res: seq<Option<Value>>)
    ensures res == NumbersOnly(arr)
  {
    res := [];
    var i := 0;
    while i < |arr|
      invariant 0 <= i <= |arr|
      invariant res == NumbersOnly(arr[..i])
    {
      assert arr[..i + 1][..i] == arr[..i];
      match arr[i] {
        case Some(Num(n)) => res := res + [Some(Num(IntValue(n)))];
        case _ =>
      }
      i := i + 1;
    }
    assert arr[..i] == arr;
  }

  /**
   * The bitmask array loop. The Java accumulator is an int, widened to a
   * long for each OR and cut back to an int; only its low 32 bits ever
   * survive, so OR-ing the long values and cutting once gives the same int.
   */
  method ResolveBitmaskElements(e: EnumDefinition, arr: seq<Option<Value>>) returns (r: Result<seq<Option<Value>>>)
    ensures r == BitmaskItems(e, arr)
  {
    var res: seq<Option<Value>> := [];
    var i := 0;
    while i < |arr|
      invariant 0 <= i <= |arr|
      invariant BitmaskItems(e, arr[..i]) == Ok(res)
    {
      assert arr[..i + 1][..i] == arr[..i];
      match arr[i] {
        case Some(Num(n)) =>
          var entries := GetByBitmask(e, LongValue(n));
          var mask := OrEntries(entries);
          res := res + [Some(Num(IntValue(mask as int)))];
        case Some(Text(name)) =>
          var entry := GetByName(e, Some(name));
          if entry.None? {
            BitmaskItemsFails(e, arr, i);
            return Err("Unknown enum value");
          }
          res := res + [Some(Num(IntValue(entry.value.value)))];
        case _ =>
          BitmaskItemsFails(e, arr, i);
          return Err("Bitmask enum expects string values");
      }
      i := i + 1;
    }
    assert arr[..i] == arr;
    return Ok(res);
  }

  /** The inner loop: OR of the entries' values. */
  method OrEntries(entries: seq<EnumEntry>) returns (mask: bv64)
    ensures mask == OrAll(entries)
  {
    mask := 0;
    var k := 0;
    while k < |entries|
      invariant 0 <= k <= |entries|
      invariant mask == OrAll(entries[..k])
    {
      assert entries[..k + 1][..k] == entries[..k];
      mask := mask | LongBits(entries[k].value);
      k := k + 1;
    }
    assert entries[..k] == entries;
  }

  /** A failing element fails the whole array, with the first failure's message. */
  lemma {:induction false} BitmaskItemsFails(e: EnumDefinition, arr: seq<Option<Value>>, i: nat)
    requires i < |arr| && BitmaskItems(e, arr[..i]).Ok? && BitmaskElement(e, arr[i]).Err?
    ensures BitmaskItems(e, arr).Err? && BitmaskItems(e, arr).reason == BitmaskElement(e, arr[i]).reason
  {
    if i < |arr| - 1 {
      var front := arr[..|arr| - 1];
      assert front[..i] == arr[..i];
      BitmaskItemsFails(e, front, i);
    } else {
      assert arr[..i] == arr[..|arr| - 1];
    }
  }

  /** A field with no enum passes any value through untouched. */
  lemma NoEnumPassesThrough(enumsByName: map<string, EnumDefinition>, field: FieldDefinition, value: Option<Value>)
    requires field.enumName.None? || field.enumName.value == ""
    ensures Resolution(enumsByName, field, value) == Ok(value)
  {
  }

  /** On an enum field, a null value and an unregistered enum are both errors. */
  lemma EnumFieldErrors(enumsByName: map<string, EnumDefinition>, field: FieldDefinition, value: Option<Value>)
    requires field.enumName.Some? && field.enumName.value != ""
    requires value.None? || field.enumName.value !in enumsByName
    ensures Resolution(enumsByName, field, value).Err?
  {
  }

  /** Resolution of an enum field is idempotent on the ints it produces. */
  lemma ResolvedNumberIsFixed(enumsByName: map<string, EnumDefinition>, field: FieldDefinition, value: Option<Value>)
    requires field.enumName.Some? && field.enumName.value in enumsByName
    requires Resolution(enumsByName, field, value).Ok?
    requires Resolution(enumsByName, field, value).value.Some? && Resolution(enumsByName, field, value).value.value.Num?
    ensures Resolution(enumsByName, field, Resolution(enumsByName, field, value).value) == Resolution(enumsByName, field, value)
  {
  }

  /**
   * Names and values round-trip: in an enum whose entry values are
   * distinct ints, the value a name resolves to looks up that name's entry.
   */
  lemma NameValueRoundTrip(enumsByName: map<string, EnumDefinition>, field: FieldDefinition, k: nat)
    requires field.enumName.Some? && field.enumName.value != "" && field.enumName.value in enumsByName
    requires var e := enumsByName[field.enumName.value];
             k < |e.entries|
             && (forall i :: 0 <= i < |e.entries| ==> INT_MIN <= e.entries[i].value <= INT_MAX)
             && (forall i, j :: 0 <= i < j < |e.entries| ==> e.entries[i].value != e.entries[j].value)
             && (forall j :: 0 <= j < k ==> e.entries[j].name != e.entries[k].name)
    ensures var e := enumsByName[field.enumName.value];
            var r := Resolution(enumsByName, field, Some(Text(e.entries[k].name)));
            r.Ok? && r.value == Some(Num(e.entries[k].value))
            && GetByValue(e, r.value.value.n) == Some(e.entries[k])
  {
    var e := enumsByName[field.enumName.value];
    var entry := e.entries[k];
    var i := FirstNamed(e.entries, entry.name);
    assert i == k;
    var j := FirstValued(e.entries, entry.value);
    assert j == k;
  }

  /** A bitmask number resolves to flags that all lie within the number's own mask. */
  lemma BitmaskNumberWithinMask(e: EnumDefinition, n: int)
    ensures Within(LongBits(LongValue(n)), OrAll(GetByBitmask(e, LongValue(n))))
  {
    BitmaskWithinMask(e, LongValue(n));
  }

  /** A non-bitmask array resolves to exactly its numbers, in order: appending a non-number changes nothing. */
  lemma NumbersOnlyAppend(a: seq<Option<Value>>, b: seq<Option<Value>>)
    ensures NumbersOnly(a + b) == NumbersOnly(a) + NumbersOnly(b)
    decreases |b|
  {
    if |b| > 0 {
      var b' := b[..|b| - 1];
      assert (a + b)[..|a + b| - 1] == a + b';
      NumbersOnlyAppend(a, b');
    } else {
      assert a + b == a;
    }
  }
}
