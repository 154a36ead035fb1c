/** The Uniqlo product code pattern `[a-zA-Z0-9]{7}-[0-9]{3}` and the
    leftmost match that JavaScript's `String.prototype.match` returns for it
    (with or without the `g` flag, element 0 is the leftmost match). */
module ProductCodePattern {
  import opened Results

  predicate IsAsciiAlnum(c: char) {
    ('a' <= c <= 'z') || ('A' <= c <= 'Z') || ('0' <= c <= '9')
  }

  predicate IsAsciiDigit(c: char) {
    '0' <= c <= '9'
  }

  /** The whole of `c` matches the pattern: seven letters or digits, a hyphen
      at index 7, three digits. */
  predicate IsProductCode(c: string) {
    |c| == 11 &&
    (forall k :: 0 <= k < 7 ==> IsAsciiAlnum(c[k])) &&
    c[7] == '-' &&
    (forall k :: 8 <= k < 11 ==> IsAsciiDigit(c[k]))
  }

  /** The pattern matches `s` starting at index `i`. The pattern has a fixed
      length of 11, so a match at `i` is exactly `s[i..i + 11]`. */
  predicate MatchesAt(s: string, i: nat) {
    i + 11 <= |s| && IsProductCode(s[i..i + 11])
  }

  /** The scan of the regular-expression engine from index `i`: the first
      start index at or after `i` where the pattern matches. */
  function FirstMatchFrom(s: string, i: nat): (r: Option<nat>)
    requires i <= |s|
    ensures r.Some? ==> i <= r.value && MatchesAt(s, r.value)
    ensures r.Some? ==> forall j :: i <= j < r.value ==> !MatchesAt(s, j)
    ensures r.None? ==> forall j :: i <= j ==> !MatchesAt(s, j)
    decreases |s| - i
  {
    if i + 11 > |s| then None
    else if MatchesAt(s, i) then Some(i)
    else FirstMatchFrom(s, i + 1)
  }

  /** `s.match(pattern)?.[0]`: the leftmost substring of `s` that matches. */
  function FirstMatch(s: string): (r: Option<string>)
    ensures r.None? <==> forall i: nat :: !MatchesAt(s, i)
    ensures r.Some? ==> IsProductCode(r.value)
    ensures r.Some? ==> exists i: nat :: MatchesAt(s, i) && s[i..i + 11] == r.value && forall j :: 0 <= j < i ==> !MatchesAt(s, j)
  {
    match FirstMatchFrom(s, 0)
    case None => None
    case Some(i) => Some(s[i..i + 11])
  }

  /** A string that is itself a product code is its own match. */
  lemma CodeIsItsOwnMatch(c: string)
    requires IsProductCode(c)
    ensures FirstMatch(c) == Some(c)
  {
    assert c[0..11] == c;
    assert MatchesAt(c, 0);
  }

  /** In a shop URL whose part before the code has no hyphen (such as
      `https://www.uniqlo.com/us/en/products/E459565-000/00`), the code is what
      is extracted, whatever follows it. */
  lemma {:induction false} CodeAfterHyphenFreePrefix(prefix: string, code: string, rest: string)
    requires '-' !in prefix
    requires IsProductCode(code)
    ensures FirstMatch(prefix + code + rest) == Some(code)
  {
    var s := prefix + code + rest;
    var n := |prefix|;
    assert s[n..n + 11] == code;
    assert MatchesAt(s, n);
    forall j | 0 <= j < n
      ensures !MatchesAt(s, j)
    {
      if j + 11 <= |s| {
        // the hyphen of a match at j would sit at j + 7
        if j + 7 < n {
          assert s[j + 7] == prefix[j + 7];
        } else {
          assert s[j + 7] == code[j + 7 - n];
          assert IsAsciiAlnum(code[j + 7 - n]);
        }
        assert s[j..j + 11][7] == s[j + 7];
      }
    }
    match FirstMatchFrom(s, 0)
    case None =>
    case Some(i) =>
      assert i == n;
  }
}
