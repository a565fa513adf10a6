/** The parts of JavaScript's string semantics that the request handlers rely on:
    `s.length`, `s.endsWith(suffix)` and `s.split(sep)[0]`. */
module JsStrings {

  /** `s.length`: JavaScript counts UTF-16 code units, so a character outside
      the Basic Multilingual Plane (a surrogate pair) counts twice. */
  function Utf16Length(s: string): (n: nat)
    ensures |s| <= n <= 2 * |s|
    ensures (forall i :: 0 <= i < |s| ==> s[i] as int < 0x1_0000) ==> n == |s|
  {
    if s == [] then 0
    else Utf16Length(s[..|s| - 1]) + (if s[|s| - 1] as int < 0x1_0000 then 1 else 2)
  }

  /** `s.endsWith(suffix)`: the last `|suffix|` characters of `s` are exactly `suffix`. */
  predicate EndsWith(s: string, suffix: string): (r: bool)
    ensures r <==> (|suffix| <= |s| &&
                    forall k :: 0 <= k < |suffix| ==> s[|s| - |suffix| + k] == suffix[k])
  {
    |suffix| <= |s| && s[|s| - |suffix|..] == suffix
  }

  /** Appending any text in front of a suffix keeps it a suffix. */
  lemma EndsWithAppended(front: string, suffix: string)
    ensures EndsWith(front + suffix, suffix)
  {
    assert (front + suffix)[|front|..] == suffix;
  }

  /** A string that ends with `suffix` is whatever precedes it followed by `suffix`. */
  lemma EndsWithSplits(s: string, suffix: string)
    requires EndsWith(s, suffix)
    ensures s == s[..|s| - |suffix|] + suffix
  {
  }

  /** `s.split(sep)[0]`: the text before the first `sep`, or all of `s` when it
      contains none. It is the longest prefix of `s` free of `sep`. */
  function BeforeFirst(s: string, sep: char): (r: string)
    ensures r <= s
    ensures sep !in r
    ensures |r| == |s| || s[|r|] == sep
  {
    if s == [] || s[0] == sep then [] else [s[0]] + BeforeFirst(s[1..], sep)
  }

  /** The three properties in `BeforeFirst`'s contract pin its result down:
      any prefix free of `sep` that ends at `sep` or at the end of `s` is it. */
  lemma {:induction false} BeforeFirstUnique(s: string, sep: char, p: string)
    requires p <= s && sep !in p
    requires |p| == |s| || s[|p|] == sep
    ensures BeforeFirst(s, sep) == p
  {
    if s != [] {
      assert p == [] || p[0] == s[0];
      if s[0] != sep && p != [] {
        BeforeFirstUnique(s[1..], sep, p[1..]);
        assert p == [s[0]] + p[1..];
      }
    }
  }

  /** When no candidate contains `sep`, the text before the first `sep` is one
      of the candidates exactly when `s` is that candidate, alone or followed by
      `sep` and anything. */
  lemma BeforeFirstAmong(s: string, sep: char, candidates: seq<string>)
    requires forall p :: p in candidates ==> sep !in p
    ensures BeforeFirst(s, sep) in candidates <==>
      exists p :: p in candidates && (s == p || p + [sep] <= s)
  {
    var local := BeforeFirst(s, sep);
    if local in candidates {
      if |local| == |s| {
        assert s == local;
      } else {
        assert local + [sep] <= s;
      }
    }
    if p :| p in candidates && (s == p || p + [sep] <= s) {
      if s != p {
        assert s[|p|] == (p + [sep])[|p|];
      }
      BeforeFirstUnique(s, sep, p);
    }
  }
}
