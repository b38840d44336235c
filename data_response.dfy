/** The body of an icon download: raw bytes and their MIME type, compared and
    hashed by content rather than by array reference. */
module DataResponse {

  /** A JVM `byte`: signed, eight bits. */
  newtype Byte = b: int | -128 <= b < 128

  const TwoTo32 := 0x1_0000_0000
  const MinInt := -0x8000_0000
  const MaxInt := 0x7FFF_FFFF

  /** The JVM `int` that `x` wraps around to. */
  function Wrap32(x: int): (r: int)
    ensures MinInt <= r <= MaxInt
    ensures (x - r) % TwoTo32 == 0
    ensures MinInt <= x <= MaxInt ==> r == x
  {
    (x - MinInt) % TwoTo32 + MinInt
  }

  /** Numbers that differ by a multiple of 2^32 wrap to the same `int`. */
  lemma WrapCongruent(x: int, y: int)
    requires (x - y) % TwoTo32 == 0
    ensures Wrap32(x) == Wrap32(y)
  {
    var k := (x - y) / TwoTo32;
    assert x - MinInt == (y - MinInt) + k * TwoTo32;
    assert (x - MinInt) % TwoTo32 == (y - MinInt) % TwoTo32 by {
      ModShift(y - MinInt, k);
    }
  }

  lemma ModShift(a: int, k: int)
    ensures (a + k * TwoTo32) % TwoTo32 == a % TwoTo32
  {
    var q := a / TwoTo32;
    var r := a % TwoTo32;
    assert a + k * TwoTo32 == (q + k) * TwoTo32 + r;
  }

  /** One step of the polynomial hash, in wrapping `int` arithmetic. */
  function HashStep(acc: int, x: int): int {
    Wrap32(31 * acc + x)
  }

  /** The same step in unbounded arithmetic. */
  function PolyStep(acc: int, x: int): int {
    31 * acc + x
  }

  /** Wrapping the accumulator first does not change the wrapped result. */
  lemma HashStepWraps(acc: int, x: int)
    ensures HashStep(Wrap32(acc), x) == Wrap32(PolyStep(acc, x))
  {
    var w := Wrap32(acc);
    var k := (acc - w) / TwoTo32;
    assert acc - w == k * TwoTo32;
    assert (31 * acc + x) - (31 * w + x) == (31 * k) * TwoTo32;
    assert ((31 * acc + x) - (31 * w + x)) % TwoTo32 == 0 by {
      ModShift(0, 31 * k);
    }
    WrapCongruent(31 * acc + x, 31 * w + x);
  }

  /** `Arrays.hashCode(byte[])`: start at 1, fold each signed byte in. */
  function ContentHash(data: seq<Byte>): (h: int)
    ensures MinInt <= h <= MaxInt
  {
    if data == [] then 1 else HashStep(ContentHash(data[..|data| - 1]), data[|data| - 1] as int)
  }

  /** The unbounded polynomial 31^n + sum of data[i] * 31^(n-1-i). */
  function ContentPoly(data: seq<Byte>): int {
    if data == [] then 1 else PolyStep(ContentPoly(data[..|data| - 1]), data[|data| - 1] as int)
  }

  /** The array hash is the unbounded polynomial reduced to an `int`. */
  lemma {:induction false} ContentHashIsPolynomial(data: seq<Byte>)
    ensures ContentHash(data) == Wrap32(ContentPoly(data))
  {
    if data != [] {
      var init := data[..|data| - 1];
      ContentHashIsPolynomial(init);
      HashStepWraps(ContentPoly(init), data[|data| - 1] as int);
    }
  }

  /** The UTF-16 code units of a string, as the JVM stores it: characters
      beyond U+FFFF become a surrogate pair. */
  function Utf16(s: string): (units: seq<int>)
    ensures |s| <= |units| <= 2 * |s|
    ensures forall i :: 0 <= i < |units| ==> 0 <= units[i] < 0x1_0000
  {
    if s == [] then []
    else
      var c := s[|s| - 1] as int;
      var tail := if c < 0x1_0000 then [c]
                  else [0xD800 + (c - 0x1_0000) / 0x400, 0xDC00 + (c - 0x1_0000) % 0x400];
      Utf16(s[..|s| - 1]) + tail
  }

  /** `String.hashCode`: start at 0, fold each UTF-16 unit in. */
  function StringHash(units: seq<int>): (h: int)
    ensures MinInt <= h <= MaxInt
  {
    if units == [] then 0 else HashStep(StringHash(units[..|units| - 1]), units[|units| - 1])
  }

  datatype DataResponse = DataResponse(data: seq<Byte>, contentType: string)

  /** What `equals` may be handed: the receiver itself, another
      `DataResponse`, or anything else (null included). */
  datatype Other = SameReference | AnotherResponse(response: DataResponse) | NotAResponse

  /** `equals`: the same reference is equal; a value of another type is not;
      two responses are equal when their bytes and content types are. */
  function Equals(self: DataResponse, other: Other): (r: bool)
    ensures other.SameReference? ==> r
    ensures other.NotAResponse? ==> !r
    ensures other.AnotherResponse? ==>
      (r <==> |self.data| == |other.response.data|
              && (forall i :: 0 <= i < |self.data| ==> self.data[i] == other.response.data[i])
              && self.contentType == other.response.contentType)
  {
    match other
    case SameReference => true
    case NotAResponse => false
    case AnotherResponse(that) => self.data == that.data && self.contentType == that.contentType
  }

  /** `hashCode`: 31 times the content hash plus the content type's hash, in
      wrapping `int` arithmetic. */
  function HashCode(self: DataResponse): (h: int)
    ensures MinInt <= h <= MaxInt
  {
    HashStep(ContentHash(self.data), StringHash(Utf16(self.contentType)))
  }

  /** Equal responses hash alike, so the pair satisfies the `hashCode` contract. */
  lemma EqualsConsistentWithHashCode(a: DataResponse, b: DataResponse)
    requires Equals(a, AnotherResponse(b))
    ensures HashCode(a) == HashCode(b)
  {
    assert a.data == b.data;
  }

  /** `equals` between two responses is symmetric. */
  lemma EqualsSymmetric(a: DataResponse, b: DataResponse)
    ensures Equals(a, AnotherResponse(b)) == Equals(b, AnotherResponse(a))
  {
  }

  /** The hash of a response is the whole polynomial, reduced once. */
  lemma HashCodeIsPolynomial(self: DataResponse)
    ensures HashCode(self) == Wrap32(31 * ContentPoly(self.data) + StringHash(Utf16(self.contentType)))
  {
    ContentHashIsPolynomial(self.data);
    HashStepWraps(ContentPoly(self.data), StringHash(Utf16(self.contentType)));
  }
}
