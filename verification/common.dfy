/**
 * Shared vocabulary of the chat backend model: an optional value for the
 * nullable Java references, the HTTP status every service call answers with,
 * timestamps in whole seconds, and the string tests the services apply to
 * request fields.
 */
module Common {

  /** A Java reference that may be null. */
  datatype Option<+T> = None | Some(value: T)

  /**
   * The status a service call answers with. `StorageFailure` stands for a
   * save rejected by a database constraint (a unique column or a column
   * length), which surfaces as a server error rather than a handled status.
   */
  datatype Status = Ok | Created | BadRequest | NotFound | Forbidden | Unauthorized | StorageFailure

  /** Wall-clock time in seconds. */
  type Time = int

  /** `plusHours(1)` on a timestamp. */
  const OneHour: int := 3600

  /**
   * `Character.isWhitespace`: the ASCII controls TAB..CR and FS..US, and the
   * Unicode space, line and paragraph separators other than the no-break
   * spaces U+00A0, U+2007 and U+202F.
   */
  predicate IsJavaWhitespace(c: char) {
    || '\t' <= c <= '\r'
    || '\U{1C}' <= c <= ' '
    || c == '\U{1680}'
    || '\U{2000}' <= c <= '\U{2006}'
    || '\U{2008}' <= c <= '\U{200A}'
    || c == '\U{2028}' || c == '\U{2029}' || c == '\U{205F}' || c == '\U{3000}'
  }

  /**
   * The scan `StringUtils.hasText` performs: walk the characters from the
   * left and stop at the first one that is not whitespace.
   */
  function ContainsText(s: string): bool
    decreases |s|
  {
    if s == [] then false else !IsJavaWhitespace(s[0]) || ContainsText(s[1..])
  }

  /** The scan finds text exactly when some character is not whitespace. */
  lemma {:induction false} ContainsTextIffSomeNonWhitespace(s: string)
    ensures ContainsText(s) <==> exists i :: 0 <= i < |s| && !IsJavaWhitespace(s[i])
    decreases |s|
  {
    if s != [] {
      ContainsTextIffSomeNonWhitespace(s[1..]);
      if exists i :: 0 <= i < |s| && !IsJavaWhitespace(s[i]) {
        var i :| 0 <= i < |s| && !IsJavaWhitespace(s[i]);
        if i > 0 {
          assert s[1..][i - 1] == s[i];
        }
      }
      if ContainsText(s[1..]) {
        var j :| 0 <= j < |s[1..]| && !IsJavaWhitespace(s[1..][j]);
        assert s[j + 1] == s[1..][j];
      }
    }
  }

  /** `StringUtils.hasText`: not null and holding at least one non-whitespace character. */
  predicate HasText(s: Option<string>): (b: bool)
    ensures b <==> s.Some? && ContainsText(s.value)
  {
    if s.None? then false
    else
      ContainsTextIffSomeNonWhitespace(s.value);
      exists i :: 0 <= i < |s.value| && !IsJavaWhitespace(s.value[i])
  }

  /** `s != null && !s.isEmpty()`: no trimming, so a blank string passes. */
  predicate IsPresentAndNonEmpty(s: Option<string>) {
    s.Some? && |s.value| > 0
  }

  lemma HasTextIsStricter(s: Option<string>)
    ensures HasText(s) ==> IsPresentAndNonEmpty(s)
    ensures s == Some(" ") ==> IsPresentAndNonEmpty(s) && !HasText(s)
  {
    if s == Some(" ") {
      assert s.value[0] == ' ';
    }
  }
}
