/** XMLUtil::ConvertUTF32ToUTF8 and the 1-4 byte layout of section 3 of RFC 3629. */
module Utf8 {
  import opened XmlChars

  /** A continuation byte 10xxxxxx carrying the low six bits of `v`. */
  function Tail(v: nat): char {
    (0x80 + v % 0x40) as char
  }

  /** The RFC 3629 octets of `v`, extended to 21 bits as the source extends it. */
  function Layout(v: nat): (bytes: string)
    ensures |bytes| <= 4
    ensures bytes == [] <==> v >= 0x200000
  {
    if v < 0x80 then [v as char]
    else if v < 0x800 then [(0xC0 + v / 0x40) as char, Tail(v)]
    else if v < 0x10000 then [(0xE0 + v / 0x1000) as char, Tail(v / 0x40), Tail(v)]
    else if v < 0x200000 then [(0xF0 + v / 0x40000) as char, Tail(v / 0x1000), Tail(v / 0x40), Tail(v)]
    else []
  }

  predicate IsTail(c: char) {
    0x80 <= c as int < 0xC0
  }

  /** An independent decoder: reads the number of octets and the leading bits
      from the first octet, six bits from each further one. As section 3 of RFC
      3629 has it, a sequence longer than its value needs is refused. */
  function Decode(bytes: string): Option<nat> {
    if |bytes| == 0 then None else
    var lead := bytes[0] as int;
    if lead < 0x80 && |bytes| == 1 then Some(lead)
    else if 0xC0 <= lead < 0xE0 && |bytes| == 2 && IsTail(bytes[1]) then
      AtLeast(0x80, (lead - 0xC0) * 0x40 + (bytes[1] as int - 0x80))
    else if 0xE0 <= lead < 0xF0 && |bytes| == 3 && IsTail(bytes[1]) && IsTail(bytes[2]) then
      AtLeast(0x800, ((lead - 0xE0) * 0x40 + (bytes[1] as int - 0x80)) * 0x40 + (bytes[2] as int - 0x80))
    else if 0xF0 <= lead < 0xF8 && |bytes| == 4 && IsTail(bytes[1]) && IsTail(bytes[2]) && IsTail(bytes[3]) then
      AtLeast(0x10000, (((lead - 0xF0) * 0x40 + (bytes[1] as int - 0x80)) * 0x40 + (bytes[2] as int - 0x80)) * 0x40
                       + (bytes[3] as int - 0x80))
    else None
  }

  function AtLeast(least: nat, v: nat): Option<nat> {
    if v < least then None else Some(v)
  }

  lemma Split64(v: nat)
    ensures v == v / 0x40 * 0x40 + v % 0x40
    ensures v / 0x1000 == v / 0x40 / 0x40 && v / 0x40000 == v / 0x1000 / 0x40
  {
  }

  /** The decoder inverts the layout for every value the source converts, and the
      source rejects exactly the rest. */
  lemma DecodeLayout(v: nat)
    ensures Decode(Layout(v)) == if v < 0x200000 then Some(v) else None
  {
    if 0x80 <= v < 0x800 {
      Split64(v);
    } else if 0x800 <= v < 0x10000 {
      Split64(v);
      Split64(v / 0x40);
    } else if 0x10000 <= v < 0x200000 {
      DecodeFour(v);
    }
  }

  lemma DecodeFour(v: nat)
    requires 0x10000 <= v < 0x200000
    ensures Decode(Layout(v)) == Some(v)
  {
    Split64(v);
    Split64(v / 0x40);
    Split64(v / 0x1000);
  }

  lemma Join64(high: nat, low: nat)
    requires low < 0x40
    ensures (high * 0x40 + low) / 0x40 == high && (high * 0x40 + low) % 0x40 == low
  {
  }

  /** The layout is the only sequence that decodes to its value. */
  lemma OnlyLayout(bytes: string, v: nat)
    requires Decode(bytes) == Some(v)
    ensures bytes == Layout(v)
  {
    if |bytes| == 2 {
      TwoOctets(bytes, v);
    } else if |bytes| == 3 {
      ThreeOctets(bytes, v);
    } else if |bytes| == 4 {
      FourOctets(bytes, v);
    }
  }

  lemma TwoOctets(bytes: string, v: nat)
    requires |bytes| == 2 && Decode(bytes) == Some(v)
    ensures bytes == Layout(v)
  {
    Join64(bytes[0] as int - 0xC0, bytes[1] as int - 0x80);
  }

  lemma ThreeOctets(bytes: string, v: nat)
    requires |bytes| == 3 && Decode(bytes) == Some(v)
    ensures bytes == Layout(v)
  {
    var high := bytes[0] as int - 0xE0;
    var middle := high * 0x40 + (bytes[1] as int - 0x80);
    Join64(high, bytes[1] as int - 0x80);
    Join64(middle, bytes[2] as int - 0x80);
    Split64(v);
  }

  lemma FourOctets(bytes: string, v: nat)
    requires |bytes| == 4 && Decode(bytes) == Some(v)
    ensures bytes == Layout(v)
  {
    var high := bytes[0] as int - 0xF0;
    var second := high * 0x40 + (bytes[1] as int - 0x80);
    var third := second * 0x40 + (bytes[2] as int - 0x80);
    Join64(high, bytes[1] as int - 0x80);
    Join64(second, bytes[2] as int - 0x80);
    Join64(third, bytes[3] as int - 0x80);
    Split64(v);
  }

  /** How many octets there are; a value of seven bits is its own octet. */
  lemma LayoutLength(v: nat)
    ensures |Layout(v)| == 1 <==> v <= 0x7F
    ensures |Layout(v)| == 2 <==> 0x80 <= v <= 0x7FF
    ensures |Layout(v)| == 3 <==> 0x800 <= v <= 0xFFFF
    ensures |Layout(v)| == 4 <==> 0x10000 <= v <= 0x1FFFFF
    ensures v <= 0x7F ==> Layout(v)[0] as int == v
  {
  }

  /** Why the masks and shifts of the source are the arithmetic used here. */
  lemma MasksAreArithmetic(x: bv32)
    ensures (x | 0x80) & 0xBF == 0x80 + x % 0x40
    ensures x >> 6 == x / 0x40
  {
  }

  lemma MarksAreArithmetic(x: bv8)
    ensures x < 0x20 ==> (x | 0xC0) == 0xC0 + x
    ensures x < 0x10 ==> (x | 0xE0) == 0xE0 + x
    ensures x < 0x08 ==> (x | 0xF0) == 0xF0 + x
  {
  }

  function FirstByteMark(length: nat): nat
    requires 1 <= length <= 4
  {
    [0x00, 0xC0, 0xE0, 0xF0][length - 1]
  }

  /** Writes the octets back to front, falling through from the longest case. */
  method ConvertUTF32ToUTF8(input: nat, output: array<char>) returns (length: nat)
    requires output.Length >= 4
    modifies output
    ensures length == |Layout(input)|
    ensures output[..length] == Layout(input)
    ensures output[length..] == old(output[length..])
  {
    if input < 0x80 {
      length := 1;
    } else if input < 0x800 {
      length := 2;
    } else if input < 0x10000 {
      length := 3;
    } else if input < 0x200000 {
      length := 4;
    } else {
      length := 0;
      return;
    }
    Split64(input);
    var rest, at := input, length;
    if length >= 4 {
      at := at - 1;
      output[at], rest := Tail(rest), rest / 0x40;
    }
    if length >= 3 {
      at := at - 1;
      output[at], rest := Tail(rest), rest / 0x40;
    }
    if length >= 2 {
      at := at - 1;
      output[at], rest := Tail(rest), rest / 0x40;
    }
    at := at - 1;
    output[at] := (rest + FirstByteMark(length)) as char;
  }
}
