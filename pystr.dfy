/** The few Python `str` operations the query classifier relies on:
    `strip()`, `lower()`, `pat in text` and `text.split(pat, 1)`.
    Each function is defined by its computation; what it guarantees is
    stated by the lemma that follows it. */
module PyStr {
  import opened Wrappers

  /** Python's `str.isspace()` for one character: the code points `strip()` removes. */
  predicate IsSpace(c: char) {
    || '\t' <= c <= '\r'
    || '\U{1C}' <= c <= ' '
    || c == '\U{85}' || c == '\U{A0}' || c == '\U{1680}'
    || '\U{2000}' <= c <= '\U{200A}'
    || c == '\U{2028}' || c == '\U{2029}' || c == '\U{202F}' || c == '\U{205F}'
    || c == '\U{3000}'
  }

  /** Neither end of `s` is whitespace: what `strip()` leaves behind. */
  predicate IsStripped(s: string) {
    s == [] || (!IsSpace(s[0]) && !IsSpace(s[|s| - 1]))
  }

  /** `s.lstrip()`. */
  function TrimStart(s: string): string {
    if s != [] && IsSpace(s[0]) then TrimStart(s[1..]) else s
  }

  /** `lstrip()` removes exactly the leading whitespace: the result is a suffix
      that does not start with whitespace, and everything before it is whitespace. */
  lemma {:induction false} TrimStartSpec(s: string)
    ensures var r := TrimStart(s);
      && |r| <= |s| && r == s[|s| - |r|..]
      && (forall i :: 0 <= i < |s| - |r| ==> IsSpace(s[i]))
      && (r == [] || !IsSpace(r[0]))
  {
    if s != [] && IsSpace(s[0]) {
      var t := s[1..];
      TrimStartSpec(t);
      var r := TrimStart(t);
      assert r == s[|s| - |r|..];
      forall i | 0 <= i < |s| - |r| ensures IsSpace(s[i]) {
        if i > 0 {
          assert s[i] == t[i - 1];
        }
      }
    }
  }

  /** `s.rstrip()`. */
  function TrimEnd(s: string): string {
    if s != [] && IsSpace(s[|s| - 1]) then TrimEnd(s[..|s| - 1]) else s
  }

  /** `rstrip()` removes exactly the trailing whitespace. */
  lemma {:induction false} TrimEndSpec(s: string)
    ensures var r := TrimEnd(s);
      && |r| <= |s| && r == s[..|r|]
      && (forall i :: |r| <= i < |s| ==> IsSpace(s[i]))
      && (r == [] || !IsSpace(r[|r| - 1]))
  {
    if s != [] && IsSpace(s[|s| - 1]) {
      var t := s[..|s| - 1];
      TrimEndSpec(t);
      var r := TrimEnd(t);
      assert r == s[..|r|];
      forall i | |r| <= i < |s| ensures IsSpace(s[i]) {
        if i < |s| - 1 {
          assert s[i] == t[i];
        }
      }
    }
  }

  /** `s.strip()`. */
  function Strip(s: string): string {
    TrimEnd(TrimStart(s))
  }

  /** `strip()` leaves a stripped string no longer than `s`, and leaves nothing
      exactly when `s` is all whitespace. */
  lemma StripSpec(s: string)
    ensures var r := Strip(s);
      && IsStripped(r) && |r| <= |s|
      && (r == [] <==> forall j :: 0 <= j < |s| ==> IsSpace(s[j]))
  {
    var t := TrimStart(s);
    TrimStartSpec(s);
    TrimEndSpec(t);
    var r := TrimEnd(t);
    if r != [] {
      assert r[0] == t[0];
      assert !IsSpace(s[|s| - |t|]);
    }
  }

  /** A string whose last character is not whitespace keeps all of its
      tail under `strip()`: the result is a non-empty suffix of it. */
  lemma StripKeepsTail(s: string)
    requires s != [] && !IsSpace(s[|s| - 1])
    ensures var r := Strip(s); r != [] && |r| <= |s| && r == s[|s| - |r|..]
  {
    var t := TrimStart(s);
    TrimStartSpec(s);
    assert t[|t| - 1] == s[|s| - 1];
    TrimEndOfStripped(t);
  }

  /** `rstrip()` leaves a string alone when its last character is not whitespace. */
  lemma TrimEndOfStripped(s: string)
    requires s == [] || !IsSpace(s[|s| - 1])
    ensures TrimEnd(s) == s
  {
  }

  /** `strip()` is the identity on a string it has already stripped. */
  lemma StripIdempotent(s: string)
    requires IsStripped(s)
    ensures Strip(s) == s
  {
    TrimEndOfStripped(TrimStart(s));
  }

  /** Python's `c.lower()`, restricted to the ASCII letters. */
  function LowerChar(c: char): (r: char)
    ensures 'A' <= c <= 'Z' ==> 'a' <= r <= 'z'
    ensures 'A' <= c <= 'Z' ==> r as int - 'a' as int == c as int - 'A' as int
    ensures !('A' <= c <= 'Z') ==> r == c
    ensures IsSpace(r) <==> IsSpace(c)
  {
    if 'A' <= c <= 'Z' then (c as int - 'A' as int + 'a' as int) as char else c
  }

  /** `s.lower()`. */
  function Lower(s: string): string {
    seq(|s|, i requires 0 <= i < |s| => LowerChar(s[i]))
  }

  /** `lower()` maps character by character: the length and the places of
      whitespace are kept, so a stripped string stays stripped. */
  lemma LowerSpec(s: string)
    ensures var r := Lower(s);
      && |r| == |s|
      && (forall i :: 0 <= i < |s| ==> r[i] == LowerChar(s[i]))
      && (forall i :: 0 <= i < |r| ==> !('A' <= r[i] <= 'Z'))
      && (IsStripped(s) ==> IsStripped(r))
  {
  }

  /** `pat` occurs in `text` starting at index `i`. */
  predicate OccursAt(text: string, pat: string, i: nat) {
    i + |pat| <= |text| && text[i..i + |pat|] == pat
  }

  /** `text.find(pat, from)`, as an option. */
  function FindFrom(text: string, pat: string, from: nat): Option<nat>
    decreases |text| - from
  {
    if from + |pat| > |text| then None
    else if text[from..from + |pat|] == pat then Some(from)
    else FindFrom(text, pat, from + 1)
  }

  /** `FindFrom` returns the first occurrence at or after `from`, and `None`
      exactly when there is none. */
  lemma {:induction false} FindFromSpec(text: string, pat: string, from: nat)
    decreases |text| - from
    ensures var r := FindFrom(text, pat, from);
      && (r.Some? ==> from <= r.value && OccursAt(text, pat, r.value))
      && (r.Some? ==> forall j :: from <= j < r.value ==> !OccursAt(text, pat, j))
      && (r.None? ==> forall j :: from <= j ==> !OccursAt(text, pat, j))
  {
    if from + |pat| <= |text| && text[from..from + |pat|] != pat {
      FindFromSpec(text, pat, from + 1);
    }
  }

  /** The first index where `pat` occurs in `text`, if any. */
  function Find(text: string, pat: string): Option<nat> {
    FindFrom(text, pat, 0)
  }

  /** Python's `pat in text`: plain substring search, not whole words. */
  predicate Contains(text: string, pat: string) {
    Find(text, pat).Some?
  }

  /** `pat in text` holds exactly when `pat` occurs at some index. */
  lemma ContainsSpec(text: string, pat: string)
    ensures Contains(text, pat) <==> exists i: nat :: OccursAt(text, pat, i)
  {
    FindFromSpec(text, pat, 0);
  }

  /** `text.split(pat, 1)[1]`: what follows the first occurrence of `pat`. */
  function After(text: string, pat: string): (r: string)
    requires Contains(text, pat)
    ensures |r| <= |text| - |pat|
  {
    FindFromSpec(text, pat, 0);
    text[Find(text, pat).value + |pat|..]
  }
}
