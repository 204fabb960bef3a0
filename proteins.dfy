/** The set of main (query) proteins: the requested names with surrounding
    whitespace removed, as Python's `str.strip()` removes it. */
module Proteins {

  /** The characters Python's `str.isspace` accepts, which `str.strip()` with
      no argument removes. */
  predicate IsSpace(c: char) {
    || c == ' '
    || '\t' <= c <= '\r'
    || '\U{1C}' <= c <= '\U{1F}'
    || c == '\U{85}'
    || c == '\U{A0}'
    || c == '\U{1680}'
    || '\U{2000}' <= c <= '\U{200A}'
    || c == '\U{2028}'
    || c == '\U{2029}'
    || c == '\U{202F}'
    || c == '\U{205F}'
    || c == '\U{3000}'
  }

  ghost predicate AllSpace(s: string) {
    forall k :: 0 <= k < |s| ==> IsSpace(s[k])
  }

  /** `lstrip()` */
  function TrimStart(s: string): string {
    if s != [] && IsSpace(s[0]) then TrimStart(s[1..]) else s
  }

  /** `rstrip()` */
  function TrimEnd(s: string): string {
    if s != [] && IsSpace(s[|s| - 1]) then TrimEnd(s[..|s| - 1]) else s
  }

  /** `lstrip()` drops the leading whitespace and nothing else. */
  lemma {:induction false} TrimStartSuffix(s: string)
    ensures |TrimStart(s)| <= |s| && TrimStart(s) == s[|s| - |TrimStart(s)|..]
    ensures AllSpace(s[..|s| - |TrimStart(s)|])
    ensures TrimStart(s) != [] ==> !IsSpace(TrimStart(s)[0])
  {
    if s != [] && IsSpace(s[0]) {
      TrimStartSuffix(s[1..]);
      var k := |s| - |TrimStart(s)|;
      assert s[1..][k - 1..] == s[k..];
      assert forall m :: 1 <= m < k ==> s[m] == s[1..][..k - 1][m - 1];
    }
  }

  /** `rstrip()` drops the trailing whitespace and nothing else. */
  lemma {:induction false} TrimEndPrefix(s: string)
    ensures |TrimEnd(s)| <= |s| && TrimEnd(s) == s[..|TrimEnd(s)|]
    ensures AllSpace(s[|TrimEnd(s)|..])
    ensures TrimEnd(s) != [] ==> !IsSpace(TrimEnd(s)[|TrimEnd(s)| - 1])
  {
    if s != [] && IsSpace(s[|s| - 1]) {
      var n := |s| - 1;
      TrimEndPrefix(s[..n]);
      var k := |TrimEnd(s)|;
      assert s[..n][..k] == s[..k];
      assert forall m :: k <= m < n ==> s[m] == s[..n][k..][m - k];
    }
  }

  /** `strip()` */
  function Strip(s: string): string {
    TrimEnd(TrimStart(s))
  }

  /** `strip()` keeps one contiguous slice of its argument, removes only
      whitespace around it, and leaves no whitespace at either end. */
  lemma StripSlice(s: string) returns (i: nat, j: nat)
    ensures i <= j <= |s| && Strip(s) == s[i..j]
    ensures AllSpace(s[..i]) && AllSpace(s[j..])
    ensures Strip(s) != [] ==> !IsSpace(Strip(s)[0]) && !IsSpace(Strip(s)[|Strip(s)| - 1])
  {
    var t := TrimStart(s);
    var r := TrimEnd(t);
    TrimStartSuffix(s);
    TrimEndPrefix(t);
    i := |s| - |t|;
    j := i + |r|;
    assert s[i..j] == t[..|r|];
    assert s[j..] == t[|r|..];
    if r != [] {
      assert r[0] == t[0];
    }
  }

  /** Stripping twice is stripping once. */
  lemma StripIdempotent(s: string)
    ensures Strip(Strip(s)) == Strip(s)
  {
    var r := Strip(s);
    var _, _ := StripSlice(s);
    if r != [] {
      TrimStartSuffix(r);
      TrimEndPrefix(r);
      assert TrimStart(r) == r;
      assert TrimEnd(r) == r;
    }
  }

  /** `set([p.strip() for p in protein_names])` */
  function MainProteins(names: seq<string>): set<string> {
    if names == [] then {} else MainProteins(names[..|names| - 1]) + {Strip(names[|names| - 1])}
  }

  /** The main-protein set holds exactly the stripped query names. */
  lemma {:induction false} MainProteinsExact(names: seq<string>, p: string)
    ensures p in MainProteins(names) <==> exists i :: 0 <= i < |names| && Strip(names[i]) == p
  {
    if names != [] {
      var n := |names| - 1;
      var front := names[..n];
      MainProteinsExact(front, p);
      if p in MainProteins(front) {
        var i :| 0 <= i < |front| && Strip(front[i]) == p;
        assert names[i] == front[i];
      }
      if exists i :: 0 <= i < |names| && Strip(names[i]) == p {
        var i :| 0 <= i < |names| && Strip(names[i]) == p;
        if i < n {
          assert front[i] == names[i];
        }
      }
    }
  }

  /** Names that coincide once stripped count once, so the main-protein set is
      no larger than the query list. */
  lemma {:induction false} MainProteinsSize(names: seq<string>)
    ensures |MainProteins(names)| <= |names|
  {
    if names != [] {
      var n := |names| - 1;
      MainProteinsSize(names[..n]);
      var before := MainProteins(names[..n]);
      assert |before + {Strip(names[n])}| <= |before| + 1;
    }
  }
}
