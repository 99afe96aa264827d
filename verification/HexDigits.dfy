/** Hexadecimal digits, as the encoders print them (upper case) and the decoders read them (either case). */
module HexDigits {
  import opened Bytes

  function Hex(v: nat): byte
    requires v < 16
  {
    if v < 10 then 48 + v else 65 + v - 10
  }

  const HEX := "0123456789ABCDEF"
  const SMALL := "abcdef"

  lemma DigitsAreHex(v: nat)
    requires v < 16
    ensures Hex(v) == HEX[v] as int
  {
  }

  predicate IsHex(c: byte)
  {
    48 <= c <= 57 || 65 <= c <= 70 || 97 <= c <= 102
  }

  function HexValue(c: byte): (v: nat)
    requires IsHex(c)
    ensures v < 16
  {
    if c <= 57 then c - 48 else if c <= 70 then c - 65 + 10 else c - 97 + 10
  }

  /** A character is a digit exactly when it stands in one of the lists, and there is its value. */
  lemma HexIsRead(c: byte)
    ensures IsHex(c) <==> (exists v :: 0 <= v < 16 && HEX[v] as int == c) || exists v :: 0 <= v < 6 && SMALL[v] as int == c
    ensures forall v :: 0 <= v < 16 && HEX[v] as int == c ==> IsHex(c) && HexValue(c) == v
    ensures forall v :: 0 <= v < 6 && SMALL[v] as int == c ==> IsHex(c) && HexValue(c) == v + 10
  {
    if IsHex(c) {
      if c <= 70 {
        DigitsAreHex(HexValue(c));
      } else {
        SmallIsHex(HexValue(c) - 10);
      }
    }
    forall v | 0 <= v < 16 ensures HEX[v] as int == if v < 10 then 48 + v else 55 + v {
      DigitsAreHex(v);
    }
    forall v | 0 <= v < 6 ensures SMALL[v] as int == 97 + v {
      SmallIsHex(v);
    }
  }

  lemma SmallIsHex(v: nat)
    requires v < 6
    ensures SMALL[v] as int == 97 + v
  {
  }
}
