/** The signed compact form of a token. A JWS in compact form is the encoded
    claims followed by a signature over that encoding; here the encoding is a
    self-delimiting text form (every field carries its own length or sign), so
    that reading a token back gives exactly the claims that were written. */
module JwtCompact {
  import opened Wrappers
  import opened Text

  /** The registered claims the application writes (`sub`, `iat`, `exp`, in
      whole seconds) and its two private claims, `userId` and `roles`. */
  datatype Claims = Claims(
    sub: Option<string>,
    iat: Option<int>,
    exp: Option<int>,
    userId: Option<int>,
    roles: Option<seq<string>>)

  /** A parsed token: its claims, the text the signature covers and the signature. */
  datatype Jws = Jws(claims: Claims, payload: string, signature: string)

  /** `rest` is what is left of `t` after a prefix was read. */
  predicate Suffix(rest: string, t: string) {
    |rest| <= |t| && rest == t[|t| - |rest|..]
  }

  // ---- natural numbers: digits then ':' ----

  function EncodeNat(n: nat): string {
    NatToString(n) + ":"
  }

  /** The length of the run of digits `s` starts with. */
  function DigitSpan(s: string): (k: nat)
    ensures k <= |s| && AllDigits(s[..k])
    ensures k < |s| ==> !IsDigit(s[k])
  {
    if |s| > 0 && IsDigit(s[0]) then
      var k := 1 + DigitSpan(s[1..]);
      assert s[..k] == [s[0]] + s[1..][..k - 1];
      k
    else
      0
  }

  function DecodeNat(t: string): (r: Option<(nat, string)>)
    ensures r.Some? ==> Suffix(r.value.1, t) && |r.value.1| < |t|
  {
    var k := DigitSpan(t);
    if 0 < k < |t| && t[k] == ':' then Some((DigitsValue(t[..k]), t[k + 1..])) else None
  }

  lemma {:induction false} DigitSpanOfDigits(d: string, t: string)
    requires AllDigits(d) && (t == [] || !IsDigit(t[0]))
    ensures DigitSpan(d + t) == |d|
  {
    if |d| > 0 {
      assert (d + t)[1..] == d[1..] + t;
      DigitSpanOfDigits(d[1..], t);
    }
  }

  lemma DecodeEncodeNat(n: nat, rest: string)
    ensures DecodeNat(EncodeNat(n) + rest) == Some((n, rest))
  {
    var d := NatToString(n);
    var t := EncodeNat(n) + rest;
    assert t == d + (":" + rest);
    DigitSpanOfDigits(d, ":" + rest);
    assert t[..|d|] == d;
    assert t[|d| + 1..] == rest;
    DigitsValueOfNatToString(n);
  }

  // ---- strings: length then the characters ----

  function EncodeStr(s: string): string {
    EncodeNat(|s|) + s
  }

  function DecodeStr(t: string): (r: Option<(string, string)>)
    ensures r.Some? ==> Suffix(r.value.1, t) && |r.value.1| < |t|
  {
    match DecodeNat(t)
    case None => None
    case Some((n, rest)) => if n <= |rest| then Some((rest[..n], rest[n..])) else None
  }

  lemma DecodeEncodeStr(s: string, rest: string)
    ensures DecodeStr(EncodeStr(s) + rest) == Some((s, rest))
  {
    assert EncodeStr(s) + rest == EncodeNat(|s|) + (s + rest);
    DecodeEncodeNat(|s|, s + rest);
    assert (s + rest)[..|s|] == s;
    assert (s + rest)[|s|..] == rest;
  }

  // ---- integers: a sign then the magnitude ----

  function EncodeInt(i: int): string {
    (if i < 0 then "-" else "+") + EncodeNat(if i < 0 then -i else i)
  }

  function DecodeInt(t: string): (r: Option<(int, string)>)
    ensures r.Some? ==> Suffix(r.value.1, t) && |r.value.1| < |t|
  {
    if |t| > 0 && (t[0] == '-' || t[0] == '+') then
      match DecodeNat(t[1..])
      case None => None
      case Some((n, rest)) =>
        var i: int := if t[0] == '-' then 0 - n else n;
        Some((i, rest))
    else
      None
  }

  lemma DecodeEncodeInt(i: int, rest: string)
    ensures DecodeInt(EncodeInt(i) + rest) == Some((i, rest))
  {
    var m: nat := if i < 0 then -i else i;
    var t := EncodeInt(i) + rest;
    assert t[1..] == EncodeNat(m) + rest;
    DecodeEncodeNat(m, rest);
  }

  // ---- lists of strings: the count then each string ----

  function EncodeItems(xs: seq<string>): string {
    if xs == [] then "" else EncodeStr(xs[0]) + EncodeItems(xs[1..])
  }

  function DecodeItems(n: nat, t: string): (r: Option<(seq<string>, string)>)
    ensures r.Some? ==> Suffix(r.value.1, t) && |r.value.0| == n
  {
    if n == 0 then
      Some(([], t))
    else
      match DecodeStr(t)
      case None => None
      case Some((x, rest)) =>
        match DecodeItems(n - 1, rest)
        case None => None
        case Some((ys, rest2)) => Some(([x] + ys, rest2))
  }

  /** One step of `DecodeItems`: a string, then the remaining items. */
  lemma DecodeItemsStep(n: nat, t: string, x: string, mid: string, ys: seq<string>, rest: string)
    requires n > 0 && DecodeStr(t) == Some((x, mid)) && DecodeItems(n - 1, mid) == Some((ys, rest))
    ensures DecodeItems(n, t) == Some(([x] + ys, rest))
  {
  }

  lemma {:induction false} DecodeEncodeItems(xs: seq<string>, rest: string)
    ensures DecodeItems(|xs|, EncodeItems(xs) + rest) == Some((xs, rest))
  {
    if xs != [] {
      var mid := EncodeItems(xs[1..]) + rest;
      assert EncodeItems(xs) + rest == EncodeStr(xs[0]) + mid;
      DecodeEncodeStr(xs[0], mid);
      DecodeEncodeItems(xs[1..], rest);
      DecodeItemsStep(|xs|, EncodeItems(xs) + rest, xs[0], mid, xs[1..], rest);
      assert [xs[0]] + xs[1..] == xs;
    }
  }

  function EncodeStrs(xs: seq<string>): string {
    EncodeNat(|xs|) + EncodeItems(xs)
  }

  function DecodeStrs(t: string): (r: Option<(seq<string>, string)>)
    ensures r.Some? ==> Suffix(r.value.1, t)
  {
    match DecodeNat(t)
    case None => None
    case Some((n, rest)) => DecodeItems(n, rest)
  }

  lemma DecodeEncodeStrs(xs: seq<string>, rest: string)
    ensures DecodeStrs(EncodeStrs(xs) + rest) == Some((xs, rest))
  {
    assert EncodeStrs(xs) + rest == EncodeNat(|xs|) + (EncodeItems(xs) + rest);
    DecodeEncodeNat(|xs|, EncodeItems(xs) + rest);
    DecodeEncodeItems(xs, rest);
  }

  // ---- absent claims: a '0' tag, present ones a '1' tag before the value ----

  function EncodeOptStr(o: Option<string>): string {
    match o
    case None => "0"
    case Some(s) => "1" + EncodeStr(s)
  }

  function DecodeOptStr(t: string): (r: Option<(Option<string>, string)>)
    ensures r.Some? ==> Suffix(r.value.1, t)
  {
    if |t| > 0 && t[0] == '0' then Some((None, t[1..]))
    else if |t| > 0 && t[0] == '1' then
      match DecodeStr(t[1..])
      case None => None
      case Some((s, rest)) => Some((Some(s), rest))
    else None
  }

  /** A '1' tag followed by a decodable string decodes to that string. */
  lemma DecodeTaggedStr(t: string, s: string, rest: string)
    requires |t| > 0 && t[0] == '1' && DecodeStr(t[1..]) == Some((s, rest))
    ensures DecodeOptStr(t) == Some((Some(s), rest))
  {
  }

  lemma DecodeEncodeOptStr(o: Option<string>, rest: string)
    ensures DecodeOptStr(EncodeOptStr(o) + rest) == Some((o, rest))
  {
    match o
    case None =>
      assert ("0" + rest)[1..] == rest;
    case Some(x) =>
      var body := EncodeStr(x) + rest;
      assert EncodeOptStr(o) + rest == "1" + body;
      assert ("1" + body)[1..] == body;
      DecodeEncodeStr(x, rest);
      DecodeTaggedStr("1" + body, x, rest);
  }

  function EncodeOptInt(o: Option<int>): string {
    match o
    case None => "0"
    case Some(i) => "1" + EncodeInt(i)
  }

  function DecodeOptInt(t: string): (r: Option<(Option<int>, string)>)
    ensures r.Some? ==> Suffix(r.value.1, t)
  {
    if |t| > 0 && t[0] == '0' then Some((None, t[1..]))
    else if |t| > 0 && t[0] == '1' then
      match DecodeInt(t[1..])
      case None => None
      case Some((i, rest)) => Some((Some(i), rest))
    else None
  }

  /** A '1' tag followed by a decodable integer decodes to that integer. */
  lemma DecodeTaggedInt(t: string, i: int, rest: string)
    requires |t| > 0 && t[0] == '1' && DecodeInt(t[1..]) == Some((i, rest))
    ensures DecodeOptInt(t) == Some((Some(i), rest))
  {
  }

  lemma DecodeEncodeOptInt(o: Option<int>, rest: string)
    ensures DecodeOptInt(EncodeOptInt(o) + rest) == Some((o, rest))
  {
    match o
    case None =>
      assert ("0" + rest)[1..] == rest;
    case Some(i) =>
      var body := EncodeInt(i) + rest;
      assert EncodeOptInt(o) + rest == "1" + body;
      assert ("1" + body)[1..] == body;
      DecodeEncodeInt(i, rest);
      DecodeTaggedInt("1" + body, i, rest);
  }

  function EncodeOptStrs(o: Option<seq<string>>): string {
    match o
    case None => "0"
    case Some(xs) => "1" + EncodeStrs(xs)
  }

  function DecodeOptStrs(t: string): (r: Option<(Option<seq<string>>, string)>)
    ensures r.Some? ==> Suffix(r.value.1, t)
  {
    if |t| > 0 && t[0] == '0' then Some((None, t[1..]))
    else if |t| > 0 && t[0] == '1' then
      match DecodeStrs(t[1..])
      case None => None
      case Some((xs, rest)) => Some((Some(xs), rest))
    else None
  }

  /** A '1' tag followed by a decodable list decodes to that list. */
  lemma DecodeTaggedStrs(t: string, xs: seq<string>, rest: string)
    requires |t| > 0 && t[0] == '1' && DecodeStrs(t[1..]) == Some((xs, rest))
    ensures DecodeOptStrs(t) == Some((Some(xs), rest))
  {
  }

  lemma DecodeEncodeOptStrs(o: Option<seq<string>>, rest: string)
    ensures DecodeOptStrs(EncodeOptStrs(o) + rest) == Some((o, rest))
  {
    match o
    case None =>
      assert ("0" + rest)[1..] == rest;
    case Some(xs) =>
      var body := EncodeStrs(xs) + rest;
      assert EncodeOptStrs(o) + rest == "1" + body;
      assert ("1" + body)[1..] == body;
      DecodeEncodeStrs(xs, rest);
      DecodeTaggedStrs("1" + body, xs, rest);
  }

  // ---- claims and the compact token ----

  function EncodeClaims(c: Claims): (s: string)
    ensures |s| > 0 && !IsWhitespace(s[0])
  {
    EncodeOptStr(c.sub) + (EncodeOptInt(c.iat) + (EncodeOptInt(c.exp)
      + (EncodeOptInt(c.userId) + EncodeOptStrs(c.roles))))
  }

  function DecodeClaims(t: string): (r: Option<(Claims, string)>)
    ensures r.Some? ==> Suffix(r.value.1, t)
  {
    var sub :- DecodeOptStr(t);
    var iat :- DecodeOptInt(sub.1);
    var exp :- DecodeOptInt(iat.1);
    var userId :- DecodeOptInt(exp.1);
    var roles :- DecodeOptStrs(userId.1);
    Some((Claims(sub.0, iat.0, exp.0, userId.0, roles.0), roles.1))
  }

  lemma DecodeEncodeClaims(c: Claims, rest: string)
    ensures DecodeClaims(EncodeClaims(c) + rest) == Some((c, rest))
  {
    var r4 := EncodeOptStrs(c.roles) + rest;
    var r3 := EncodeOptInt(c.userId) + r4;
    var r2 := EncodeOptInt(c.exp) + r3;
    var r1 := EncodeOptInt(c.iat) + r2;
    var t := EncodeClaims(c) + rest;
    assert t == EncodeOptStr(c.sub) + r1 by {
      var e3 := EncodeOptInt(c.userId) + EncodeOptStrs(c.roles);
      var e2 := EncodeOptInt(c.exp) + e3;
      var e1 := EncodeOptInt(c.iat) + e2;
      assert e3 + rest == r3;
      assert e2 + rest == r2;
      assert e1 + rest == r1;
    }
    DecodeEncodeOptStr(c.sub, r1);
    DecodeEncodeOptInt(c.iat, r2);
    DecodeEncodeOptInt(c.exp, r3);
    DecodeEncodeOptInt(c.userId, r4);
    DecodeEncodeOptStrs(c.roles, rest);
    DecodeClaimsSteps(t, c, r1, r2, r3, r4, rest);
  }

  /** Five successful field reads in a row make a successful claims read. */
  lemma DecodeClaimsSteps(t: string, c: Claims, r1: string, r2: string, r3: string, r4: string, rest: string)
    requires DecodeOptStr(t) == Some((c.sub, r1))
    requires DecodeOptInt(r1) == Some((c.iat, r2))
    requires DecodeOptInt(r2) == Some((c.exp, r3))
    requires DecodeOptInt(r3) == Some((c.userId, r4))
    requires DecodeOptStrs(r4) == Some((c.roles, rest))
    ensures DecodeClaims(t) == Some((c, rest))
  {
  }

  /** `compact()`: the encoded claims followed by the encoded signature. */
  function Compact(c: Claims, signature: string): string {
    EncodeClaims(c) + EncodeStr(signature)
  }

  /** Splits a compact token into claims, signed text and signature; None when
      the text is not a well-formed token. */
  function ParseCompact(token: string): (r: Option<Jws>)
    ensures r.Some? ==> StartsWith(token, r.value.payload)
  {
    match DecodeClaims(token)
    case None => None
    case Some((c, rest)) =>
      match DecodeStr(rest)
      case None => None
      case Some((signature, tail)) =>
        if tail == "" then Some(Jws(c, token[..|token| - |rest|], signature)) else None
  }

  /** Reading a token back gives the claims and signature it was built from,
      and the signature covers exactly the encoded claims. */
  lemma ParseCompactRoundTrip(c: Claims, signature: string)
    ensures ParseCompact(Compact(c, signature)) == Some(Jws(c, EncodeClaims(c), signature))
  {
    var token := Compact(c, signature);
    DecodeEncodeClaims(c, EncodeStr(signature));
    assert EncodeStr(signature) == EncodeStr(signature) + "";
    DecodeEncodeStr(signature, "");
    assert token[..|token| - |EncodeStr(signature)|] == EncodeClaims(c);
  }

  /** Two tokens are the same text only when they carry the same claims and signature. */
  lemma CompactInjective(c1: Claims, s1: string, c2: Claims, s2: string)
    requires Compact(c1, s1) == Compact(c2, s2)
    ensures c1 == c2 && s1 == s2
  {
    ParseCompactRoundTrip(c1, s1);
    ParseCompactRoundTrip(c2, s2);
  }
}
