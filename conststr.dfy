/**
 * Model of `ConstString`, the immutable string of `iroha_primitives` that is
 * stored inline when it is short and behind a reference-counted pointer
 * otherwise.
 *
 * The Rust type is a `union` of the two variants whose tag is the most
 * significant bit of the byte they share: the inline length byte, or the top
 * byte of the reference-counted length (64-bit, little-endian layout).  Here
 * the variants are a datatype, and `TagByte` computes that shared byte for
 * either of them, so that the claim "the tag tells the variants apart" is
 * proved instead of taken for granted.  Strings are byte sequences; UTF-8
 * validity is assumed by the source and not modelled.
 */
module ConstStr {
  import opened Wrappers

  /** A byte, Rust's `u8`. */
  newtype u8 = x: int | 0 <= x < 256

  /** Bytes in a `usize` on the modelled 64-bit target. */
  const USIZE_BYTES: nat := 8

  /** Longest string stored inline: 15 bytes on a 64-bit target. */
  const MAX_INLINED_STRING_LEN: nat := 2 * USIZE_BYTES - 1

  /** `isize::MAX`: no Rust string is longer than this many bytes. */
  const ISIZE_MAX: nat := 0x7FFF_FFFF_FFFF_FFFF

  /** Weight of the most significant byte of a 64-bit `usize`. */
  const MSB_WEIGHT: nat := 0x100_0000_0000_0000

  /** The tag bit of the inline length byte. */
  const INLINED_TAG: u8 := 128

  /** The bytes of a Rust `str` or `String`. */
  type Bytes = s: seq<u8> | |s| <= ISIZE_MAX

  datatype Ordering = Less | Equal | Greater

  /** `n` zero bytes. */
  function Zeros(n: nat): seq<u8>
  {
    seq(n, _ => 0)
  }

  /** Inline variant: a fixed payload and a length byte that carries the tag bit. */
  datatype InlinedString = InlinedString(payload: seq<u8>, len: u8)
  {
    /** The shape `InlinedString::try_from` and `InlinedString::new` establish. */
    predicate Valid()
    {
      |payload| == MAX_INLINED_STRING_LEN && IsInlined() && Len() <= MAX_INLINED_STRING_LEN
    }

    /** The tag test: the length byte is at least 128. */
    function IsInlined(): (r: bool)
      ensures r <==> (len as bv8) & 0x80 == 0x80
    {
      len >= INLINED_TAG
    }

    /** The length byte with the tag bit cleared. */
    function Len(): (n: nat)
      requires IsInlined()
      ensures n < 128 && n + 128 == len as int
    {
      (len - INLINED_TAG) as nat
    }

    /** The stored bytes: the payload up to the length. */
    function AsRef(): seq<u8>
      requires Valid()
    {
      payload[..Len()]
    }
  }

  /** `InlinedString::new`: an all-zero payload and the bare tag as length byte. */
  function NewInlined(): (s: InlinedString)
    ensures s.Valid() && s.len == INLINED_TAG && s.Len() == 0 && s.AsRef() == []
    ensures forall k :: 0 <= k < |s.payload| ==> s.payload[k] == 0
  {
    InlinedString(Zeros(MAX_INLINED_STRING_LEN), INLINED_TAG)
  }

  /**
   * `InlinedString::try_from(&str)` as a value: too long a string comes back
   * unchanged as the error; otherwise the bytes fill the front of a fresh
   * payload and the length is added to the tagged length byte.
   */
  function Inline(value: Bytes): (r: Result<InlinedString, Bytes>)
    ensures r.Ok? <==> |value| <= MAX_INLINED_STRING_LEN
    ensures r.Err? ==> r.error == value
    ensures r.Ok? ==> r.value.Valid() && r.value.len as int == 128 + |value|
                      && r.value.Len() == |value| && r.value.AsRef() == value
  {
    if |value| > MAX_INLINED_STRING_LEN then Err(value)
    else
      var s := InlinedString(value + Zeros(MAX_INLINED_STRING_LEN - |value|),
                             INLINED_TAG + |value| as u8);
      assert s.payload[..|value|] == value;
      Ok(s)
  }

  /**
   * `InlinedString::try_from(&str)` as the source writes it: start from
   * `InlinedString::new`, copy the bytes into the front of the payload and
   * add the length to the tagged length byte.
   */
  method TryFrom(value: Bytes) returns (r: Result<InlinedString, Bytes>)
    ensures r == Inline(value)
  {
    var len := |value|;
    if len > MAX_INLINED_STRING_LEN {
      return Err(value);
    }
    var blank := NewInlined();
    var payload := new u8[MAX_INLINED_STRING_LEN](k requires 0 <= k < MAX_INLINED_STRING_LEN => blank.payload[k]);
    forall k | 0 <= k < len {
      payload[k] := value[k];
    }
    var tag := blank.len;
    tag := tag + len as u8;
    r := Ok(InlinedString(payload[..], tag));
    assert payload[..] == value + Zeros(MAX_INLINED_STRING_LEN - len);
  }

  /**
   * `InlinedString::try_from(String)`: the same test, and on failure the
   * error carries a copy of the input string.
   */
  function TryFromString(value: Bytes): (r: Result<InlinedString, Bytes>)
    ensures r == Inline(value)
  {
    match Inline(value)
    case Ok(inlined) => Ok(inlined)
    case Err(_) => Err(value)
  }

  /** Reference-counted variant: the shared bytes and a cached length. */
  datatype ArcString = ArcString(arc: seq<u8>, len: nat)
  {
    /** `ArcString::from` caches the true length, which Rust bounds by `isize::MAX`. */
    predicate Valid()
    {
      len == |arc| && len <= ISIZE_MAX
    }
  }

  /** `ArcString::from(&str)` and `ArcString::from(String)`. */
  function ArcFrom(value: Bytes): ArcString
  {
    ArcString(value, |value|)
  }

  datatype ConstString = Inlined(inlined: InlinedString) | RefCounted(refCounted: ArcString)
  {
    predicate Valid()
    {
      match this
      case Inlined(s) => s.Valid()
      case RefCounted(a) => a.Valid()
    }

    /**
     * The byte both views of the union share: the inline length byte, or
     * the most significant byte of the reference-counted length.  A valid
     * reference-counted length is at most `isize::MAX`, so its tag bit is 0.
     */
    function TagByte(): (t: u8)
      requires Valid()
      ensures Inlined? ==> t == inlined.len
      ensures RefCounted? ==> t < INLINED_TAG
    {
      match this
      case Inlined(s) => s.len
      case RefCounted(a) => (a.len / MSB_WEIGHT) as u8
    }

    /**
     * `ConstString::is_inlined`: the tag bit of the shared byte, read
     * through the inline view whichever variant is stored; on a valid
     * value it names the variant.
     */
    function IsInlined(): (r: bool)
      requires Valid()
      ensures r <==> Inlined?
    {
      TagByte() >= INLINED_TAG
    }

    /** `ConstString::len`: branch on the tag, then ask that variant. */
    function Len(): (n: nat)
      requires Valid()
      ensures n == |AsRef()|
    {
      if IsInlined() then inlined.Len() else refCounted.len
    }

    /** `ConstString::is_empty`. */
    function IsEmpty(): (r: bool)
      requires Valid()
      ensures r <==> AsRef() == []
    {
      Len() == 0
    }

    /** `as_ref` / `deref`: the bytes of whichever variant the tag names. */
    function AsRef(): (s: seq<u8>)
      requires Valid()
      ensures |s| <= ISIZE_MAX
    {
      if IsInlined() then inlined.AsRef() else refCounted.arc
    }

    /** `PartialEq::eq`: compare the dereferenced strings. */
    function Eq(other: ConstString): (r: bool)
      requires Valid() && other.Valid()
      ensures r <==> Cmp(other) == Equal
    {
      LexCmpEqual(AsRef(), other.AsRef());
      AsRef() == other.AsRef()
    }

    /**
     * `Ord::cmp`: compare the dereferenced strings; `Equal` exactly on the
     * same bytes, and swapping the operands swaps `Less` and `Greater`.
     */
    function Cmp(other: ConstString): (r: Ordering)
      requires Valid() && other.Valid()
      ensures r == Equal <==> AsRef() == other.AsRef()
      ensures r == Less <==> LexCmp(other.AsRef(), AsRef()) == Greater
      ensures r == Greater <==> LexCmp(other.AsRef(), AsRef()) == Less
    {
      LexCmpEqual(AsRef(), other.AsRef());
      LexCmpAntisymmetric(AsRef(), other.AsRef());
      LexCmpAntisymmetric(other.AsRef(), AsRef());
      LexCmp(AsRef(), other.AsRef())
    }

    /**
     * `Hash::hash`: feed the dereferenced string to the hasher; only the
     * live prefix of an inline payload is hashed, never its zero padding.
     */
    function Hash<H>(hasher: seq<u8> -> H): (r: H)
      requires Valid()
      ensures Inlined? ==> r == hasher(inlined.payload[..inlined.len as int - 128])
      ensures RefCounted? ==> r == hasher(refCounted.arc)
    {
      hasher(AsRef())
    }

    /** `Clone::clone`: copy the inline bytes, or share the reference-counted ones. */
    function Clone(): (c: ConstString)
      requires Valid()
      ensures c.Valid()
    {
      if IsInlined() then Inlined(inlined)
      else RefCounted(ArcString(refCounted.arc, refCounted.len))
    }
  }

  /** `ConstString::new` and `Default::default`. */
  function New(): (c: ConstString)
    ensures c.Valid()
  {
    Inlined(NewInlined())
  }

  /**
   * `From<T> for ConstString`: inline the value when `try_into` succeeds,
   * otherwise turn the value it hands back into an `ArcString`.
   */
  function From(value: Bytes): (c: ConstString)
    ensures c.Valid()
    ensures c.IsInlined() <==> |value| <= MAX_INLINED_STRING_LEN
    ensures c.Inlined? <==> c.IsInlined()
    ensures c.Len() == |value|
    ensures c.AsRef() == value
  {
    match Inline(value)
    case Ok(inlined) => Inlined(inlined)
    case Err(v) => RefCounted(ArcFrom(v))
  }

  /** Byte-wise lexicographic order, which is Rust's `Ord` for `str`. */
  function LexCmp(a: seq<u8>, b: seq<u8>): Ordering
  {
    if a == [] then (if b == [] then Equal else Less)
    else if b == [] then Greater
    else if a[0] < b[0] then Less
    else if a[0] > b[0] then Greater
    else LexCmp(a[1..], b[1..])
  }

  /** The order identifies exactly the equal strings. */
  lemma {:induction false} LexCmpEqual(a: seq<u8>, b: seq<u8>)
    ensures LexCmp(a, b) == Equal <==> a == b
  {
    if a != [] && b != [] && a[0] == b[0] {
      LexCmpEqual(a[1..], b[1..]);
      assert a == [a[0]] + a[1..] && b == [b[0]] + b[1..];
    }
  }

  /** Swapping the operands flips the answer. */
  lemma {:induction false} LexCmpAntisymmetric(a: seq<u8>, b: seq<u8>)
    ensures LexCmp(a, b) == Less <==> LexCmp(b, a) == Greater
    ensures LexCmp(a, b) == Equal <==> LexCmp(b, a) == Equal
  {
    if a != [] && b != [] && a[0] == b[0] {
      LexCmpAntisymmetric(a[1..], b[1..]);
    }
  }

  /** The order is transitive. */
  lemma {:induction false} LexCmpTransitive(a: seq<u8>, b: seq<u8>, c: seq<u8>)
    requires LexCmp(a, b) == Less && LexCmp(b, c) == Less
    ensures LexCmp(a, c) == Less
  {
    if a != [] && b != [] && c != [] && a[0] == b[0] && b[0] == c[0] {
      LexCmpTransitive(a[1..], b[1..], c[1..]);
    }
  }

  /** `Ord::cmp` is transitive, so `ConstString` is a total order. */
  lemma CmpIsTransitive(a: ConstString, b: ConstString, c: ConstString)
    requires a.Valid() && b.Valid() && c.Valid()
    requires a.Cmp(b) == Less && b.Cmp(c) == Less
    ensures a.Cmp(c) == Less
  {
    LexCmpTransitive(a.AsRef(), b.AsRef(), c.AsRef());
  }

  /** `ConstString::new()` is inlined, empty, tagged 128 and zero-filled. */
  lemma NewIsEmptyInlined()
    ensures New().IsInlined() && New().Inlined?
    ensures New().Len() == 0 && New().IsEmpty() && New().AsRef() == []
    ensures New().TagByte() == 128
    ensures forall k :: 0 <= k < MAX_INLINED_STRING_LEN ==> New().inlined.payload[k] == 0
  {
  }

  /**
   * Length, equality, ordering and hashing read the contents only: two
   * valid strings with the same bytes agree on all four, whichever
   * variants hold them.
   */
  lemma ContentsDecideEverything<H>(c: ConstString, d: ConstString, hasher: seq<u8> -> H)
    requires c.Valid() && d.Valid() && c.AsRef() == d.AsRef()
    ensures c.Len() == d.Len() && c.Eq(d) && c.Cmp(d) == Equal && c.Hash(hasher) == d.Hash(hasher)
  {
    LexCmpEqual(c.AsRef(), d.AsRef());
  }

  /**
   * Converting two strings gives values that compare, test equal and hash
   * exactly as the strings themselves do.
   */
  lemma FromAgreesWithStrings<H>(s: Bytes, t: Bytes, hasher: seq<u8> -> H)
    ensures From(s).Cmp(From(t)) == LexCmp(s, t)
    ensures From(s).Eq(From(t)) <==> s == t
    ensures From(s).Hash(hasher) == hasher(s)
  {
  }

  /** A clone keeps the variant and equals the original. */
  lemma CloneKeepsVariant(c: ConstString)
    requires c.Valid()
    ensures c.Clone().IsInlined() == c.IsInlined()
    ensures c.Clone().Inlined? == c.Inlined?
    ensures c.Clone().Eq(c)
  {
  }
}
