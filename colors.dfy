/**
  The colour attributes of the VGA text mode: the sixteen palette colours with
  their fixed 4-bit hardware codes, and the attribute byte that packs a
  foreground and a background colour into one byte.
 */
module Colors {

  /** The sixteen palette colours, declared in the order of their codes 0..15. */
  datatype Color =
    | Black | Blue | Green | Cyan | Red | Magenta | Brown | LightGray
    | DarkGray | LightBlue | LightGreen | LightCyan | LightRed | Pink | Yellow | White

  /** The fixed hardware code of a colour (the `u8` discriminant of the enum). */
  function Code(c: Color): (n: bv8)
    ensures n < 16
  {
    match c
    case Black => 0
    case Blue => 1
    case Green => 2
    case Cyan => 3
    case Red => 4
    case Magenta => 5
    case Brown => 6
    case LightGray => 7
    case DarkGray => 8
    case LightBlue => 9
    case LightGreen => 10
    case LightCyan => 11
    case LightRed => 12
    case Pink => 13
    case Yellow => 14
    case White => 15
  }

  /** The colour whose hardware code is `n`: every 4-bit code names one colour. */
  function FromCode(n: bv8): (c: Color)
    requires n < 16
    ensures Code(c) == n
  {
    if n == 0 then Black
    else if n == 1 then Blue
    else if n == 2 then Green
    else if n == 3 then Cyan
    else if n == 4 then Red
    else if n == 5 then Magenta
    else if n == 6 then Brown
    else if n == 7 then LightGray
    else if n == 8 then DarkGray
    else if n == 9 then LightBlue
    else if n == 10 then LightGreen
    else if n == 11 then LightCyan
    else if n == 12 then LightRed
    else if n == 13 then Pink
    else if n == 14 then Yellow
    else White
  }

  /** Decoding a colour's code gives the colour back, so `Code` is one-to-one. */
  lemma FromCodeOfCode(c: Color)
    ensures FromCode(Code(c)) == c
  {
    match c
    case Black =>
    case Blue =>
    case Green =>
    case Cyan =>
    case Red =>
    case Magenta =>
    case Brown =>
    case LightGray =>
    case DarkGray =>
    case LightBlue =>
    case LightGreen =>
    case LightCyan =>
    case LightRed =>
    case Pink =>
    case Yellow =>
    case White =>
  }

  /** A packed attribute byte: background in the high nibble, foreground in the low. */
  datatype ColorEntry = ColorEntry(bits: bv8)
  {
    /** Packs a foreground and a background colour, as the hardware expects them. */
    static function New(foreground: Color, background: Color): (e: ColorEntry)
      ensures e.bits & 0x0F == Code(foreground)
      ensures e.bits >> 4 == Code(background)
      ensures e.bits as int == 16 * Code(background) as int + Code(foreground) as int
    {
      ColorEntry((Code(background) << 4) | Code(foreground))
    }

    /** The colour stored in the low nibble. */
    function Foreground(): Color
    {
      FromCode(bits & 0x0F)
    }

    /** The colour stored in the high nibble. */
    function Background(): Color
    {
      FromCode(bits >> 4)
    }
  }

  /** Unpacking a packed entry returns the pair it was packed from. */
  lemma UnpackNew(foreground: Color, background: Color)
    ensures ColorEntry.New(foreground, background).Foreground() == foreground
    ensures ColorEntry.New(foreground, background).Background() == background
  {
    FromCodeOfCode(foreground);
    FromCodeOfCode(background);
  }

  /** Every attribute byte is the packing of the two colours it unpacks to. */
  lemma NewUnpack(e: ColorEntry)
    ensures ColorEntry.New(e.Foreground(), e.Background()) == e
  {
    var lo, hi := e.bits & 0x0F, e.bits >> 4;
    assert (hi << 4) | lo == e.bits;
  }

  /** Distinct colour pairs give distinct attribute bytes. */
  lemma NewInjective(f1: Color, b1: Color, f2: Color, b2: Color)
    requires ColorEntry.New(f1, b1) == ColorEntry.New(f2, b2)
    ensures f1 == f2 && b1 == b2
  {
    UnpackNew(f1, b1);
    UnpackNew(f2, b2);
  }
}
