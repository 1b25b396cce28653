/** The Jakarta Bean Validation built-in constraints the DTOs use.
    `@NotNull` holds of any non-null value; `@NotBlank` holds of a non-null
    character sequence with at least one non-whitespace character, decided the
    way the reference validator decides it: the string is trimmed with Java's
    String.trim and must not come out empty. */
module Validation {
  import opened Common

  /** The characters String.trim drops: every code point up to U+0020. */
  predicate Trimmable(c: char)
  {
    c <= ' '
  }

  /** Independent description of "not blank": some character survives trimming. */
  ghost predicate HasVisibleChar(s: string)
  {
    exists i :: 0 <= i < |s| && !Trimmable(s[i])
  }

  /** Every character of `s` is one that trimming drops. */
  ghost predicate AllTrimmable(s: string)
  {
    forall i :: 0 <= i < |s| ==> Trimmable(s[i])
  }

  /** The first loop of String.trim: advance the start past trimmable characters. */
  function SkipLeading(s: string, st: nat): (k: nat)
    requires st <= |s|
    ensures st <= k <= |s|
    ensures forall i :: st <= i < k ==> Trimmable(s[i])
    ensures k < |s| ==> !Trimmable(s[k])
    decreases |s| - st
  {
    if st < |s| && Trimmable(s[st]) then SkipLeading(s, st + 1) else st
  }

  /** The second loop of String.trim: lower the end past trimmable characters,
      never below the start. */
  function SkipTrailing(s: string, st: nat, len: nat): (k: nat)
    requires st <= len <= |s|
    ensures st <= k <= len
    ensures forall i :: k <= i < len ==> Trimmable(s[i])
    ensures st < k ==> !Trimmable(s[k - 1])
    decreases len
  {
    if st < len && Trimmable(s[len - 1]) then SkipTrailing(s, st, len - 1) else len
  }

  /** Java's String.trim. */
  function Trim(s: string): (r: string)
    ensures |r| <= |s|
    ensures |r| > 0 ==> !Trimmable(r[0]) && !Trimmable(r[|r| - 1])
    ensures |r| == 0 <==> AllTrimmable(s)
    ensures exists a, b :: 0 <= a <= b <= |s| && r == s[a..b] && AllTrimmable(s[..a]) && AllTrimmable(s[b..])
  {
    var st := SkipLeading(s, 0);
    var len := SkipTrailing(s, st, |s|);
    assert AllTrimmable(s[..st]);
    assert AllTrimmable(s[len..]);
    s[st..len]
  }

  /** A string value fails `@NotBlank`: it is null or made of trimmable characters only. */
  ghost predicate Blank(s: Option<string>)
  {
    s.None? || AllTrimmable(s.value)
  }

  /** `@NotBlank`: not null, and not empty once trimmed. */
  function NotBlank(s: Option<string>): (b: bool)
    ensures b <==> s.Some? && HasVisibleChar(s.value)
    ensures b <==> !Blank(s)
  {
    s.Some? && |Trim(s.value)| > 0
  }

  /** `@NotNull`. */
  predicate NotNull<T>(x: Option<T>)
  {
    x.Some?
  }
}
