/** Values shared by every part of the library: bytes, Guids, payload objects and exceptions. */
module Types {

  /** A .NET byte. */
  newtype byte = x: int | 0 <= x < 256

  /** Array.MaxLength: the longest byte[] the runtime allocates. */
  const MaxArrayLength := 0x7FFF_FFC7

  /** A .NET byte[]. */
  type ByteArray = s: seq<byte> | |s| <= MaxArrayLength

  /** A Guid. The value 0 stands for Guid.Empty; Guid.NewGuid never yields it. */
  type Guid = nat

  const EmptyGuid: Guid := 0

  /** The System.Type that tags a payload (its full name). */
  type TypeTag = string

  /** The handle of a user callback: the model never looks inside a delegate. */
  type HandlerId = nat

  /**
   * A non-null .NET object: its runtime type, the classes and interfaces that type derives
   * from, and an opaque identity.
   */
  datatype Obj = Obj(runtimeType: TypeTag, baseTypes: set<TypeTag>, payload: nat)

  /** `v is t`, and the test a cast `(t)v` makes: v's runtime type is t or derives from t. */
  predicate InstanceOf(v: Obj, t: TypeTag)
  {
    v.runtimeType == t || t in v.baseTypes
  }

  datatype Option<+T> = None | Some(value: T)

  /** The exceptions the library tells apart in its catch clauses. */
  datatype Exception =
    | ThreadAbort
    | TaskCanceled
    | Serialization(endOfStream: bool, text: string)
    | Failure(kind: string, text: string)
  {
    /** Exception.Message. */
    function Message(): string
    {
      match this
      case ThreadAbort => "Thread was being aborted."
      case TaskCanceled => "A task was canceled."
      case Serialization(_, text) => text
      case Failure(_, text) => text
    }
  }

  function InvalidOperation(message: string): Exception
  {
    Failure("InvalidOperationException", message)
  }

  function ArgumentNull(parameter: string): Exception
  {
    Failure("ArgumentNullException", "Value cannot be null. (Parameter '" + parameter + "')")
  }

  function Argument(message: string): Exception
  {
    Failure("ArgumentException", message)
  }

  const NullReference: Exception :=
    Failure("NullReferenceException", "Object reference not set to an instance of an object.")

  /** What `new byte[n]` throws for a negative n. */
  const Overflow: Exception :=
    Failure("OverflowException", "Arithmetic operation resulted in an overflow.")

  /** What `new byte[n]` throws for an n above Array.MaxLength. */
  const OutOfMemory: Exception :=
    Failure("OutOfMemoryException", "Array dimensions exceeded supported range.")

  /** The message of an OperationCanceledException that was given none. */
  const OperationCanceledMessage := "The operation was canceled."

  /** How a call that returns nothing ended. */
  datatype Completion = Normal | Raised(e: Exception)

  /** How a call that returns a value ended. */
  datatype Returns<+T> = Returned(value: T) | Throws(e: Exception)

  /** Guid.NewGuid: every Guid it hands out differs from all earlier ones and from Guid.Empty. */
  class GuidSource {
    var next: nat

    /** True of the Guids handed out so far. */
    predicate Issued(g: Guid)
      reads this
    {
      1 <= g < next
    }

    constructor ()
      ensures forall g :: !Issued(g)
    {
      next := 1;
    }

    method NewGuid() returns (g: Guid)
      modifies this
      ensures g != EmptyGuid && !old(Issued(g))
      ensures forall h :: Issued(h) <==> old(Issued(h)) || h == g
      ensures old(next) <= g < next
    {
      g := if next == 0 then 1 else next;
      next := g + 1;
    }
  }

  /** A Guid holds 128 bits: 32 hex digits. */
  const GuidDigits: nat := 32

  /** Guid.ToString(): the "D" format, 32 hex digits in groups of 8-4-4-4-12. */
  function GuidToString(g: Guid): (s: string)
    ensures |s| == 36
    ensures forall i | 0 <= i < |s| :: !IsWhiteSpace(s[i])
  {
    Hyphenate(Hex(g, GuidDigits))
  }

  /** Splits 32 hex digits into the groups 8-4-4-4-12. */
  function Hyphenate(h: string): (s: string)
    requires |h| == 32
    ensures |s| == 36
    ensures forall i | 0 <= i < |s| :: s[i] == '-' || s[i] in h
  {
    h[..8] + "-" + h[8..12] + "-" + h[12..16] + "-" + h[16..20] + "-" + h[20..]
  }

  lemma HyphenateInjective(a: string, b: string)
    requires |a| == 32 && |b| == 32 && Hyphenate(a) == Hyphenate(b)
    ensures a == b
  {
    var s := Hyphenate(a);
    assert s[..8] == a[..8] && s[9..13] == a[8..12] && s[14..18] == a[12..16];
    assert s[19..23] == a[16..20] && s[24..] == a[20..];
    assert s[..8] == b[..8] && s[9..13] == b[8..12] && s[14..18] == b[12..16];
    assert s[19..23] == b[16..20] && s[24..] == b[20..];
    assert a == a[..8] + a[8..12] + a[12..16] + a[16..20] + a[20..];
    assert b == b[..8] + b[8..12] + b[12..16] + b[16..20] + b[20..];
  }

  function HexDigit(d: nat): (c: char)
    requires d < 16
    ensures !IsWhiteSpace(c)
  {
    if d < 10 then (48 + d) as char else (87 + d) as char
  }

  /** The lowest `width` hex digits of n, most significant first. */
  function Hex(n: nat, width: nat): (s: string)
    ensures |s| == width
    ensures forall i | 0 <= i < |s| :: !IsWhiteSpace(s[i])
  {
    if width == 0 then [] else Hex(n / 16, width - 1) + [HexDigit(n % 16)]
  }

  function Pow16(k: nat): (p: nat)
    ensures p > 0
  {
    if k == 0 then 1 else 16 * Pow16(k - 1)
  }

  lemma {:induction false} HexInjective(n: nat, m: nat, width: nat)
    requires n < Pow16(width) && m < Pow16(width)
    requires Hex(n, width) == Hex(m, width)
    ensures n == m
  {
    if width > 0 {
      var hn, hm := Hex(n, width), Hex(m, width);
      assert hn[width - 1] == HexDigit(n % 16) && hm[width - 1] == HexDigit(m % 16);
      assert n % 16 == m % 16;
      assert hn[..width - 1] == Hex(n / 16, width - 1);
      assert hm[..width - 1] == Hex(m / 16, width - 1);
      HexInjective(n / 16, m / 16, width - 1);
    }
  }

  /** Distinct Guids print differently (for the 128 bits a Guid holds). */
  lemma GuidToStringInjective(g: Guid, h: Guid)
    requires g < Pow16(GuidDigits) && h < Pow16(GuidDigits)
    requires GuidToString(g) == GuidToString(h)
    ensures g == h
  {
    HyphenateInjective(Hex(g, GuidDigits), Hex(h, GuidDigits));
    HexInjective(g, h, GuidDigits);
  }

  /** char.IsWhiteSpace: the Unicode White_Space characters. */
  predicate IsWhiteSpace(c: char)
  {
    ('\U{0009}' <= c <= '\U{000D}') || c == '\U{0020}' || c == '\U{0085}' || c == '\U{00A0}'
    || c == '\U{1680}' || ('\U{2000}' <= c <= '\U{200A}') || c == '\U{2028}' || c == '\U{2029}'
    || c == '\U{202F}' || c == '\U{205F}' || c == '\U{3000}'
  }
}
