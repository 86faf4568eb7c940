/** Heading text to anchor slug. */
module Slugs {
  import opened Seqs

  predicate SlugChar(c: char) {
    'a' <= c <= 'z' || '0' <= c <= '9'
  }

  /** What lower-casing must leave alone; Unicode's does. */
  ghost predicate FixesSlugs(lower: char -> char) {
    (forall c :: SlugChar(c) ==> lower(c) == c) && !SlugChar(lower('-'))
  }

  function SlugFrom(lower: char -> char, s: string, out: string, pending: bool): string
    decreases |s|
  {
    if s == [] then out
    else
      var r := lower(s[0]);
      if SlugChar(r) then SlugFrom(lower, s[1..], out + (if pending && out != [] then "-" else "") + [r], false)
      else SlugFrom(lower, s[1..], out, true)
  }

  function Slug(lower: char -> char, s: string): string {
    SlugFrom(lower, s, "", false)
  }

  method Slugify(lower: char -> char, s: string) returns (slug: string)
    ensures slug == Slug(lower, s)
  {
    slug := "";
    var pendingHyphen := false;
    for i := 0 to |s|
      invariant SlugFrom(lower, s[i..], slug, pendingHyphen) == Slug(lower, s)
    {
      assert s[i..][1..] == s[i + 1..];
      var r := lower(s[i]);
      if SlugChar(r) {
        if pendingHyphen && |slug| > 0 {
          slug := slug + "-";
        } else {
          assert slug + "" == slug;
        }
        pendingHyphen := false;
        slug := slug + [r];
      } else {
        pendingHyphen := true;
      }
    }
    assert s[|s|..] == [];
  }

  /** Lower-case alphanumerics and single interior hyphens. */
  predicate IsSlug(s: string) {
    && (forall i :: 0 <= i < |s| ==> SlugChar(s[i]) || s[i] == '-')
    && (s != [] ==> s[0] != '-' && s[|s| - 1] != '-')
    && forall i :: 0 < i < |s| ==> !(s[i - 1] == '-' && s[i] == '-')
  }

  lemma {:induction false} SlugFromIsSlug(lower: char -> char, s: string, out: string, pending: bool)
    requires IsSlug(out)
    ensures IsSlug(SlugFrom(lower, s, out, pending))
    decreases |s|
  {
    if s != [] {
      var r := lower(s[0]);
      if SlugChar(r) {
        var next := out + (if pending && out != [] then "-" else "") + [r];
        assert out != [] ==> next[|out| - 1] == out[|out| - 1];
        SlugFromIsSlug(lower, s[1..], next, false);
      } else {
        SlugFromIsSlug(lower, s[1..], out, true);
      }
    }
  }

  lemma {:induction false} SlugFromFixes(lower: char -> char, s: string, out: string, pending: bool)
    requires FixesSlugs(lower) && (pending ==> out != [])
    requires IsSlug(out + (if pending then "-" else "") + s)
    ensures SlugFrom(lower, s, out, pending) == out + (if pending then "-" else "") + s
    decreases |s|
  {
    var whole := out + (if pending then "-" else "") + s;
    if s == [] {
      assert (out + "-" + "")[|out|] == '-';
      assert !pending;
    } else {
      var k := |whole| - |s|;
      assert whole[k] == s[0];
      assert k > 0 && pending ==> whole[k - 1] == '-';
      if SlugChar(s[0]) {
        var next := out + (if pending && out != [] then "-" else "") + [s[0]];
        assert whole == next + s[1..];
        assert next + "" + s[1..] == next + s[1..];
        SlugFromFixes(lower, s[1..], next, false);
      } else {
        assert s[0] == '-' && out != [];
        assert whole == out + "-" + s[1..];
        SlugFromFixes(lower, s[1..], out, true);
      }
    }
  }

  /** A slug is a fixed point, and nothing else is: so slugs are idempotent. */
  lemma SlugFixedIff(lower: char -> char, s: string)
    requires FixesSlugs(lower)
    ensures IsSlug(Slug(lower, s))
    ensures Slug(lower, s) == s <==> IsSlug(s)
    ensures Slug(lower, Slug(lower, s)) == Slug(lower, s)
  {
    SlugFromIsSlug(lower, s, "", false);
    if IsSlug(s) {
      FixedFromStart(lower, s);
    }
    FixedFromStart(lower, Slug(lower, s));
  }

  lemma FixedFromStart(lower: char -> char, s: string)
    requires FixesSlugs(lower) && IsSlug(s)
    ensures Slug(lower, s) == s
  {
    assert "" + "" + s == s;
    SlugFromFixes(lower, s, "", false);
  }

  // ----- the slug of words -----

  function Lowered(lower: char -> char, word: string): string {
    seq(|word|, i requires 0 <= i < |word| => lower(word[i]))
  }

  predicate Alphanumeric(lower: char -> char, c: char) {
    'a' <= lower(c) <= 'z' || '0' <= lower(c) <= '9'
  }

  ghost predicate Word(lower: char -> char, word: string) {
    word != "" && forall c <- word :: Alphanumeric(lower, c)
  }

  ghost predicate Parting(lower: char -> char, between: string) {
    between != "" && forall c <- between :: !Alphanumeric(lower, c)
  }

  function Spelled(words: seq<string>, partings: seq<string>): string
    requires |words| == |partings|
  {
    if words == [] then "" else words[0] + partings[0] + Spelled(words[1..], partings[1..])
  }

  function Hyphened(lower: char -> char, words: seq<string>): string {
    if words == [] then "" else Lowered(lower, words[0]) + (if |words| > 1 then "-" else "") + Hyphened(lower, words[1..])
  }

  lemma {:induction false} TakesWord(lower: char -> char, word: string, rest: string, out: string, pending: bool)
    requires Word(lower, word)
    ensures SlugFrom(lower, word + rest, out, pending)
            == SlugFrom(lower, rest, out + (if pending && out != "" then "-" else "") + Lowered(lower, word), false)
    decreases |word|
  {
    var r := lower(word[0]);
    var next := out + (if pending && out != "" then "-" else "") + [r];
    assert word[0] in word && (word + rest)[0] == word[0] && (word + rest)[1..] == word[1..] + rest;
    assert Lowered(lower, word) == [r] + Lowered(lower, word[1..]);
    if |word| == 1 {
      assert word[1..] + rest == rest && Lowered(lower, word) == [r];
    } else {
      TakesWord(lower, word[1..], rest, next, false);
      assert next + "" + Lowered(lower, word[1..])
          == out + (if pending && out != "" then "-" else "") + Lowered(lower, word);
    }
  }

  lemma {:induction false} SkipsParting(lower: char -> char, between: string, rest: string, out: string, pending: bool)
    requires forall c <- between :: !Alphanumeric(lower, c)
    ensures SlugFrom(lower, between + rest, out, pending) == SlugFrom(lower, rest, out, pending || between != "")
    decreases |between|
  {
    if between == "" {
      assert between + rest == rest;
    } else {
      assert between[0] in between && (between + rest)[1..] == between[1..] + rest;
      SkipsParting(lower, between[1..], rest, out, true);
    }
  }

  lemma {:induction false} TakesWords(lower: char -> char, words: seq<string>, partings: seq<string>, out: string)
    requires |words| == |partings| && out != "" && forall i :: 0 <= i < |words| ==> Word(lower, words[i])
    requires forall i :: 0 <= i < |words| - 1 ==> Parting(lower, partings[i])
    requires forall i, c :: 0 <= i < |words| && c in partings[i] ==> !Alphanumeric(lower, c)
    ensures SlugFrom(lower, Spelled(words, partings), out, true)
            == out + (if words == [] then "" else "-") + Hyphened(lower, words)
    decreases |words|
  {
    if words == [] {
      assert out + "" + "" == out;
    } else {
      var rest := Spelled(words[1..], partings[1..]);
      var next := out + "-" + Lowered(lower, words[0]);
      assert words[0] + partings[0] + rest == words[0] + (partings[0] + rest);
      TakesWord(lower, words[0], partings[0] + rest, out, true);
      SkipsParting(lower, partings[0], rest, next, false);
      if |words| == 1 {
        assert rest == "" && Hyphened(lower, words) == Lowered(lower, words[0]) + "" + "";
      } else {
        assert Parting(lower, partings[0]);
        TakesWords(lower, words[1..], partings[1..], next);
        assert next + "-" + Hyphened(lower, words[1..]) == out + "-" + (Lowered(lower, words[0]) + "-" + Hyphened(lower, words[1..]));
      }
    }
  }

  /** A heading's slug is its words, lower-cased, with one hyphen between each two, whatever
      parts them and whatever stands around them. */
  lemma SlugOfWords(lower: char -> char, before: string, words: seq<string>, partings: seq<string>)
    requires |words| == |partings| && forall i :: 0 <= i < |words| ==> Word(lower, words[i])
    requires forall i :: 0 <= i < |words| - 1 ==> Parting(lower, partings[i])
    requires forall i, c :: 0 <= i < |words| && c in partings[i] ==> !Alphanumeric(lower, c)
    requires forall c <- before :: !Alphanumeric(lower, c)
    ensures Slug(lower, before + Spelled(words, partings)) == Hyphened(lower, words)
  {
    SkipsParting(lower, before, Spelled(words, partings), "", false);
    if words != [] {
      var rest, first := Spelled(words[1..], partings[1..]), Lowered(lower, words[0]);
      assert words[0] + partings[0] + rest == words[0] + (partings[0] + rest);
      TakesWord(lower, words[0], partings[0] + rest, "", before != "");
      assert "" + "" + first == first;
      SkipsParting(lower, partings[0], rest, first, false);
      if |words| == 1 {
        assert rest == "" && Hyphened(lower, words) == first + "" + "";
      } else {
        assert Parting(lower, partings[0]);
        TakesWords(lower, words[1..], partings[1..], first);
        assert first + "-" + Hyphened(lower, words[1..]) == Hyphened(lower, words);
      }
    }
  }
}
