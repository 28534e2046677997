/**
 * The PHP and WordPress functions the plugin calls. String helpers whose
 * behaviour is simple (trim, strtoupper on ASCII) are defined here; the rest
 * (is_numeric with its (int) cast, strtotime, is_email, the sanitisers and
 * get_post) are foreign code and reach the model as the fields of an `Env`
 * value passed to every operation that calls them.
 */
module Php {
  import opened Wrappers
  import Civil

  /** A WordPress post as the plugin inspects it. */
  datatype Post = Post(postType: string, postStatus: string)

  datatype Env = Env(
    numericValue: string -> Option<int>,   // Some((int) $s) exactly when is_numeric($s)
    strtotime: string -> Option<int>,      // strtotime: None stands for false
    isEmail: string -> bool,               // is_email
    sanitizeTextField: string -> string,   // sanitize_text_field
    sanitizeEmail: string -> string,       // sanitize_email
    getPost: int -> Option<Post>           // get_post
  )

  /** The characters PHP's trim() strips by default: space, \t, \n, \r, \0 and \x0B. */
  predicate IsTrimChar(c: char) {
    c == ' ' || c == '\t' || c == '\n' || c == '\r' || c == '\0' || c == '\U{000B}'
  }

  predicate IsBlank(s: string) {
    forall i :: 0 <= i < |s| ==> IsTrimChar(s[i])
  }

  /** Where trim() starts cutting from the left: the first non-trim character at or after `i`. */
  function TrimStart(s: string, i: nat): (k: nat)
    requires i <= |s|
    ensures i <= k <= |s|
    ensures forall m :: i <= m < k ==> IsTrimChar(s[m])
    ensures k == |s| || !IsTrimChar(s[k])
    decreases |s| - i
  {
    if i < |s| && IsTrimChar(s[i]) then TrimStart(s, i + 1) else i
  }

  /** Where trim() stops on the right: the end of the last non-trim character of s[lo..j], or `lo`. */
  function TrimEnd(s: string, lo: nat, j: nat): (k: nat)
    requires lo <= j <= |s|
    ensures lo <= k <= j
    ensures forall m :: k <= m < j ==> IsTrimChar(s[m])
    ensures k == lo || !IsTrimChar(s[k - 1])
    decreases j
  {
    if j > lo && IsTrimChar(s[j - 1]) then TrimEnd(s, lo, j - 1) else j
  }

  /** PHP's trim($s): strips trim characters from both ends. */
  function Trim(s: string): (r: string)
    ensures r == [] || (!IsTrimChar(r[0]) && !IsTrimChar(r[|r| - 1]))
  {
    var a := TrimStart(s, 0);
    s[a..TrimEnd(s, a, |s|)]
  }

  /** What trim() leaves is a slice of its input with only blank text cut off on either side. */
  lemma TrimIsSlice(s: string)
    ensures exists i, j :: 0 <= i <= j <= |s| && Trim(s) == s[i..j] && IsBlank(s[..i]) && IsBlank(s[j..])
  {
    var i := TrimStart(s, 0);
    var j := TrimEnd(s, i, |s|);
    assert IsBlank(s[..i]);
    assert IsBlank(s[j..]);
  }

  /** Trimming blank text leaves nothing. */
  lemma BlankTrimsAway(s: string)
    requires IsBlank(s)
    ensures Trim(s) == []
  {
  }

  /** trim() yields the empty string exactly when the input is blank. */
  lemma TrimEmptyIffBlank(s: string)
    ensures Trim(s) == [] <==> IsBlank(s)
  {
    if IsBlank(s) {
      BlankTrimsAway(s);
    }
  }

  /** trim() leaves a string that neither begins nor ends with a trim character unchanged. */
  lemma TrimUnchanged(s: string)
    requires s != [] && !IsTrimChar(s[0]) && !IsTrimChar(s[|s| - 1])
    ensures Trim(s) == s
  {
  }

  function UpperChar(c: char): char {
    if 'a' <= c <= 'z' then (c as int - 32) as char else c
  }

  /** PHP's strtoupper($s), which since PHP 8.2 maps only the ASCII letters. */
  function ToUpper(s: string): (r: string)
    ensures |r| == |s|
  {
    seq(|s|, i requires 0 <= i < |s| => UpperChar(s[i]))
  }

  /** is_numeric rejects `s` when it is blank. */
  ghost predicate BlankNotNumeric(env: Env, s: string) {
    IsBlank(s) ==> env.numericValue(s) == None
  }

  /**
   * strtotime reads the Y-m-d text of `d` as midnight UTC of `d`, and
   * is_numeric rejects it; only for years 1000 to 9999, the span of a MySQL
   * DATE column, since how strtotime reads other years' text is not part of
   * this model.
   */
  ghost predicate ReadsFormatted(env: Env, d: Civil.Date) {
    Civil.ValidDate(d) && Civil.InDateRange(d) ==>
      && env.numericValue(Civil.Format(d)) == None
      && env.strtotime(Civil.Format(d)) == Some(Civil.SecondsPerDay * Civil.DayNumber(d))
  }

  /** What the model takes for granted about is_numeric: it rejects blank strings. */
  ghost predicate BlanksNotNumeric(env: Env) {
    forall s :: BlankNotNumeric(env, s)
  }

  /**
   * What the model takes for granted about strtotime (WordPress runs PHP in
   * UTC): it reads a Y-m-d text gmdate produced, for a year from 1000 to 9999,
   * as midnight UTC of that day.
   */
  ghost predicate ReadsOwnDates(env: Env) {
    forall d :: ReadsFormatted(env, d)
  }
}
