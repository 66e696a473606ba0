/**
 * The two string operations the resolver relies on: case folding to upper
 * case (`ToUpper`) and removal of underscores (`Replace("_", "")`).
 */
module Text {

  /** ASCII upper-casing of one character; every other character is kept. */
  function UpperChar(c: char): char
  {
    if 'a' <= c <= 'z' then (c as int - 32) as char else c
  }

  /** Upper-cases a string character by character. */
  function Upper(s: string): string
  {
    seq(|s|, i requires 0 <= i < |s| => UpperChar(s[i]))
  }

  /** Removes every underscore, keeping the other characters in order. */
  function StripUnderscores(s: string): (r: string)
    ensures '_' !in r
    ensures |r| <= |s|
    ensures forall c :: c in r ==> c in s
  {
    if s == [] then []
    else if s[0] == '_' then StripUnderscores(s[1..])
    else [s[0]] + StripUnderscores(s[1..])
  }

  /** Upper-casing neither creates nor removes underscores. */
  lemma UnderscoreSurvivesUpper(s: string)
    ensures '_' in s <==> '_' in Upper(s)
  {
    if '_' in s {
      var i :| 0 <= i < |s| && s[i] == '_';
      assert Upper(s)[i] == '_';
    }
    if '_' in Upper(s) {
      var i :| 0 <= i < |s| && Upper(s)[i] == '_';
      assert s[i] == '_';
    }
  }

  /** Stripping leaves a string without underscores unchanged, and only such a string. */
  lemma {:induction false} StripFixesExactlyUnderscoreFree(s: string)
    ensures StripUnderscores(s) == s <==> '_' !in s
  {
    if s != [] {
      StripFixesExactlyUnderscoreFree(s[1..]);
      if s[0] == '_' {
        assert |StripUnderscores(s)| < |s|;
      } else {
        assert s == [s[0]] + s[1..];
      }
    }
  }

  /** Stripping is idempotent. */
  lemma StripIdempotent(s: string)
    ensures StripUnderscores(StripUnderscores(s)) == StripUnderscores(s)
  {
    StripFixesExactlyUnderscoreFree(StripUnderscores(s));
  }

  /** Stripping distributes over concatenation. */
  lemma {:induction false} StripConcat(a: string, b: string)
    ensures StripUnderscores(a + b) == StripUnderscores(a) + StripUnderscores(b)
  {
    if a == [] {
      assert a + b == b;
    } else {
      assert (a + b)[0] == a[0];
      assert (a + b)[1..] == a[1..] + b;
      StripConcat(a[1..], b);
      var head := if a[0] == '_' then [] else [a[0]];
      assert StripUnderscores(a + b) == head + (StripUnderscores(a[1..]) + StripUnderscores(b));
      assert StripUnderscores(a) == head + StripUnderscores(a[1..]);
    }
  }
}
