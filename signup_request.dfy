/** Bean-validation constraints on the authentication request bodies. */
module SignupRequest {
  import opened Wrappers
  import opened Errors
  import opened Text

  datatype SignupRequest = SignupRequest(username: string, password: string)
  datatype LoginRequest = LoginRequest(username: string, password: string)
  datatype RefreshRequest = RefreshRequest(refreshToken: string)

  predicate IsAsciiLetter(c: char) {
    ('a' <= c <= 'z') || ('A' <= c <= 'Z')
  }

  /** A precomposed Hangul syllable, U+AC00 to U+D7A3. */
  predicate IsHangulSyllable(c: char) {
    '\U{AC00}' <= c <= '\U{D7A3}'
  }

  predicate UsernameChar(c: char) {
    IsAsciiLetter(c) || IsDigit(c) || IsHangulSyllable(c)
  }

  /** The symbols the password pattern lists besides letters and digits. */
  const PasswordSymbols: set<char> := {'!', '@', '#', '$', '%', '^', '&', '*', '(', ')', '_', '+', '-', '=',
                                       '[', ']', '{', '}', ';', '\'', ':', '"', ',', '.', '<', '>', '?', '/'}

  predicate PasswordChar(c: char) {
    IsAsciiLetter(c) || IsDigit(c) || c in PasswordSymbols
  }

  /** The username pattern: letters, digits and Hangul syllables only (possibly none). */
  predicate UsernamePatternMatches(s: string) {
    forall i :: 0 <= i < |s| ==> UsernameChar(s[i])
  }

  predicate PasswordPatternMatches(s: string) {
    forall i :: 0 <= i < |s| ==> PasswordChar(s[i])
  }

  /** `@NotBlank`: something is left after trimming characters up to U+0020. */
  predicate NotBlank(s: string) {
    exists i :: 0 <= i < |s| && s[i] > ' '
  }

  const UsernamePatternMessage := "사용자 이름은 영문, 숫자, 한글만 가능합니다"
  const UsernameRequiredMessage := "사용자 이름은 필수 항목입니다."
  const PasswordPatternMessage := "비밀번호는 영문, 숫자만 가능합니다"
  const PasswordRequiredMessage := "비밀번호는 필수 항목입니다."
  const RefreshRequiredMessage := "리프레시 토큰은 필수 입력값입니다"

  /** The violations of a sign-up body, one per failed constraint. */
  function ValidateSignup(req: SignupRequest): (errors: seq<FieldError>)
    ensures errors == [] <==> (UsernamePatternMatches(req.username) && NotBlank(req.username)
                               && PasswordPatternMatches(req.password) && NotBlank(req.password))
    ensures forall i :: 0 <= i < |errors| ==> errors[i].field in {"username", "password"} && errors[i].defaultMessage.Some?
    ensures FieldError("username", Some(UsernamePatternMessage)) in errors <==> !UsernamePatternMatches(req.username)
    ensures FieldError("username", Some(UsernameRequiredMessage)) in errors <==> !NotBlank(req.username)
    ensures FieldError("password", Some(PasswordPatternMessage)) in errors <==> !PasswordPatternMatches(req.password)
    ensures FieldError("password", Some(PasswordRequiredMessage)) in errors <==> !NotBlank(req.password)
    ensures |errors| <= 4
  {
    (if UsernamePatternMatches(req.username) then [] else [FieldError("username", Some(UsernamePatternMessage))])
    + (if NotBlank(req.username) then [] else [FieldError("username", Some(UsernameRequiredMessage))])
    + (if PasswordPatternMatches(req.password) then [] else [FieldError("password", Some(PasswordPatternMessage))])
    + (if NotBlank(req.password) then [] else [FieldError("password", Some(PasswordRequiredMessage))])
  }

  function ValidateLogin(req: LoginRequest): (errors: seq<FieldError>)
    ensures errors == [] <==> NotBlank(req.username) && NotBlank(req.password)
  {
    (if NotBlank(req.username) then [] else [FieldError("username", Some(UsernameRequiredMessage))])
    + (if NotBlank(req.password) then [] else [FieldError("password", Some(PasswordRequiredMessage))])
  }

  function ValidateRefresh(req: RefreshRequest): (errors: seq<FieldError>)
    ensures errors == [] <==> NotBlank(req.refreshToken)
  {
    if NotBlank(req.refreshToken) then [] else [FieldError("refreshToken", Some(RefreshRequiredMessage))]
  }

  /** A username is accepted exactly when it is non-empty and made of letters,
      digits and Hangul syllables. */
  lemma UsernameAcceptedIff(s: string)
    ensures (UsernamePatternMatches(s) && NotBlank(s)) <==> (|s| > 0 && forall i :: 0 <= i < |s| ==> UsernameChar(s[i]))
  {
    if |s| > 0 && UsernamePatternMatches(s) {
      assert UsernameChar(s[0]);
    }
  }

  /** A password is accepted exactly when it is non-empty and made of the allowed characters. */
  lemma PasswordAcceptedIff(s: string)
    ensures (PasswordPatternMatches(s) && NotBlank(s)) <==> (|s| > 0 && forall i :: 0 <= i < |s| ==> PasswordChar(s[i]))
  {
    if |s| > 0 && PasswordPatternMatches(s) {
      assert PasswordChar(s[0]);
    }
  }

  /** The empty string passes both patterns; only `@NotBlank` refuses it. */
  lemma EmptyOnlyFailsNotBlank()
    ensures UsernamePatternMatches("") && PasswordPatternMatches("")
    ensures ValidateSignup(SignupRequest("", "")) ==
      [FieldError("username", Some(UsernameRequiredMessage)), FieldError("password", Some(PasswordRequiredMessage))]
  {
  }

  /** No whitespace character is allowed anywhere in either field, nor the
      backslash, backtick, tilde or vertical bar in a password. */
  lemma ForbiddenCharacters(s: string, i: int)
    requires 0 <= i < |s|
    ensures IsWhitespace(s[i]) ==> !UsernamePatternMatches(s) && !PasswordPatternMatches(s)
    ensures s[i] in {'\\', '`', '~', '|'} ==> !PasswordPatternMatches(s)
  {
    if IsWhitespace(s[i]) {
      WhitespaceRefused(s[i]);
    }
    if s[i] in {'\\', '`', '~', '|'} {
      UnlistedSymbolsRefused(s[i]);
    }
  }

  lemma WhitespaceRefused(c: char)
    requires IsWhitespace(c)
    ensures !UsernameChar(c) && !PasswordChar(c)
  {
    assert c <= ' ' || c >= '\U{00A0}';
  }

  lemma UnlistedSymbolsRefused(c: char)
    requires c in {'\\', '`', '~', '|'}
    ensures !PasswordChar(c)
  {
  }
}
