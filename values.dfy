// The Java objects that flow through the payload codec: numbers, strings,
// byte arrays, lists and object arrays, and anything else. A Java null is
// the absence of a value (`Option.None`).

module Values {
  import opened Bytes

  datatype Value =
    | Num(n: int)                          // a java.lang.Number holding an integral value
    | Text(utf8: seq<uint8>)               // a String, by its UTF-8 encoding
    | Raw(bytes: seq<uint8>)               // a byte[]
    | Items(elements: seq<Option<Value>>)  // a java.util.List
    | Elements(elements: seq<Option<Value>>) // an Object[]
    | Other(display: seq<uint8>)           // any other object, by the UTF-8 text of its toString()

  const TWO32: int := 0x1_0000_0000

  /** `Number.intValue()` of an integral number: its low 32 bits as two's complement. */
  function IntValue(n: int): (r: int)
    ensures INT_MIN <= r <= INT_MAX
    ensures (r - n) % TWO32 == 0
    ensures INT_MIN <= n <= INT_MAX ==> r == n
  {
    var low := n % TWO32;
    if low > INT_MAX then low - TWO32 else low
  }

  /** The decimal text of a Java integer, as `Long.toString` writes it. */
  function DecimalText(n: int): (r: seq<uint8>)
    ensures |r| >= 1
  {
    if n < 0 then ['-' as int] + Digits(-n) else Digits(n)
  }

  function Digits(n: nat): (r: seq<uint8>)
    ensures |r| >= 1
    ensures forall i :: 0 <= i < |r| ==> '0' as int <= r[i] <= '9' as int
  {
    if n < 10 then ['0' as int + n] else Digits(n / 10) + ['0' as int + n % 10]
  }
}
