/**
 * Public feed addresses: `RSSManager._create_slug` turns an output's display name
 * into the slug under which the feed is served, by lower-casing, replacing every
 * character outside `[a-z0-9-]` with '-', collapsing runs of '-', stripping '-' from
 * both ends, and falling back to "feed" when nothing is left.
 */
module Slugs {

  /**
   * Python's `str.lower()` for one character, as far as it matters to the slug:
   * 'A'..'Z' map to 'a'..'z', and the only other characters whose lower case contains
   * an ASCII letter are U+0130 (to "i" and a combining dot) and the Kelvin sign U+212A
   * (to "k"). Every other character is kept; its lower case lies outside ASCII and is
   * replaced by '-' in the next step anyway.
   */
  function LowerChar(c: char): string {
    if 'A' <= c <= 'Z' then [(c as int + 32) as char]
    else if c == 'İ' then ['i', '̇']
    else if c == 'K' then ['k']
    else [c]
  }

  function Lower(s: string): string {
    if s == [] then [] else LowerChar(s[0]) + Lower(s[1..])
  }

  predicate IsAlnum(c: char) {
    'a' <= c <= 'z' || '0' <= c <= '9'
  }

  predicate IsSlugChar(c: char) {
    IsAlnum(c) || c == '-'
  }

  ghost predicate AllSlugChars(s: string) {
    forall i :: 0 <= i < |s| ==> IsSlugChar(s[i])
  }

  ghost predicate NoDoubleDash(s: string) {
    forall i :: 0 <= i < |s| - 1 ==> !(s[i] == '-' && s[i + 1] == '-')
  }

  /** The shape of every slug: non-empty, `[a-z0-9-]` only, no "--", no '-' at either end. */
  ghost predicate IsSlug(s: string) {
    && |s| > 0
    && AllSlugChars(s)
    && NoDoubleDash(s)
    && s[0] != '-'
    && s[|s| - 1] != '-'
  }

  /** The letters and digits of s, in order. */
  function Alnums(s: string): string {
    if s == [] then [] else (if IsAlnum(s[0]) then [s[0]] else []) + Alnums(s[1..])
  }

  /** `re.sub(r'[^a-z0-9\-]', '-', s)` */
  function ReplaceInvalid(s: string): (r: string)
    ensures |r| == |s|
    ensures forall i :: 0 <= i < |s| ==> r[i] == (if IsSlugChar(s[i]) then s[i] else '-')
  {
    if s == [] then [] else [if IsSlugChar(s[0]) then s[0] else '-'] + ReplaceInvalid(s[1..])
  }

  /** `re.sub(r'-+', '-', s)` */
  function CollapseDashes(s: string): (r: string)
    ensures |s| > 0 ==> |r| > 0 && r[0] == s[0]
  {
    if |s| <= 1 then s
    else if s[0] == '-' && s[1] == '-' then CollapseDashes(s[1..])
    else [s[0]] + CollapseDashes(s[1..])
  }

  function TrimLeading(s: string): string {
    if s != [] && s[0] == '-' then TrimLeading(s[1..]) else s
  }

  function TrimTrailing(s: string): string {
    if s != [] && s[|s| - 1] == '-' then TrimTrailing(s[..|s| - 1]) else s
  }

  /** `s.strip('-')` */
  function StripDashes(s: string): string {
    TrimTrailing(TrimLeading(s))
  }

  /** `RSSManager._create_slug(name)` */
  function CreateSlug(name: string): (slug: string)
    ensures IsSlug(slug)
  {
    var s := StripDashes(CollapseDashes(ReplaceInvalid(Lower(name))));
    SlugSteps(Lower(name));
    if s == [] then "feed" else s
  }

  // ---- the individual steps ----

  lemma {:induction false} AlnumsOfReplaced(s: string)
    ensures Alnums(ReplaceInvalid(s)) == Alnums(s)
  {
    if s != [] {
      AlnumsOfReplaced(s[1..]);
      assert ReplaceInvalid(s)[1..] == ReplaceInvalid(s[1..]);
    }
  }

  lemma {:induction false} CollapseDashesCorrect(s: string)
    ensures AllSlugChars(s) ==> AllSlugChars(CollapseDashes(s))
    ensures NoDoubleDash(CollapseDashes(s))
    ensures Alnums(CollapseDashes(s)) == Alnums(s)
    decreases |s|
  {
    if |s| > 1 {
      CollapseDashesCorrect(s[1..]);
      var rest := CollapseDashes(s[1..]);
      if s[0] == '-' && s[1] == '-' {
        assert Alnums(s) == Alnums(s[1..]);
      } else {
        var r := [s[0]] + rest;
        assert r[1..] == rest;
        if AllSlugChars(s) {
          assert AllSlugChars(s[1..]);
        }
        forall i | 0 <= i < |r| - 1
          ensures !(r[i] == '-' && r[i + 1] == '-')
        {
          if i > 0 {
            assert r[i] == rest[i - 1] && r[i + 1] == rest[i];
          }
        }
      }
    }
  }

  lemma {:induction false} CollapseDashesKeeps(s: string)
    requires NoDoubleDash(s)
    ensures CollapseDashes(s) == s
    decreases |s|
  {
    if |s| > 1 {
      assert NoDoubleDash(s[1..]) by {
        forall i | 0 <= i < |s[1..]| - 1
          ensures !(s[1..][i] == '-' && s[1..][i + 1] == '-')
        {
          assert s[1..][i] == s[i + 1] && s[1..][i + 1] == s[i + 2];
        }
      }
      CollapseDashesKeeps(s[1..]);
      assert s == [s[0]] + s[1..];
    }
  }

  lemma {:induction false} TrimLeadingCorrect(s: string)
    ensures var r := TrimLeading(s);
      && |r| <= |s| && r == s[|s| - |r|..]
      && (r == [] || r[0] != '-')
      && Alnums(r) == Alnums(s)
    decreases |s|
  {
    if s != [] && s[0] == '-' {
      TrimLeadingCorrect(s[1..]);
      var r := TrimLeading(s[1..]);
      assert s[|s| - |r|..] == s[1..][|s[1..]| - |r|..];
    }
  }

  lemma {:induction false} AlnumsAppend(s: string, t: string)
    ensures Alnums(s + t) == Alnums(s) + Alnums(t)
  {
    if s == [] {
      assert s + t == t;
    } else {
      var head := if IsAlnum(s[0]) then [s[0]] else [];
      AlnumsAppend(s[1..], t);
      assert (s + t)[0] == s[0] && (s + t)[1..] == s[1..] + t;
      assert Alnums(s + t) == head + (Alnums(s[1..]) + Alnums(t));
    }
  }

  lemma {:induction false} TrimTrailingCorrect(s: string)
    ensures var r := TrimTrailing(s);
      && |r| <= |s| && r == s[..|r|]
      && (r == [] || r[|r| - 1] != '-')
      && Alnums(r) == Alnums(s)
    decreases |s|
  {
    if s != [] && s[|s| - 1] == '-' {
      var init := s[..|s| - 1];
      TrimTrailingCorrect(init);
      AlnumsAppend(init, ['-']);
      assert s == init + ['-'];
    }
  }

  lemma {:induction false} OnlyDashesTrimAway(s: string)
    requires AllSlugChars(s) && Alnums(s) == []
    ensures TrimLeading(s) == []
    decreases |s|
  {
    if s != [] {
      assert IsSlugChar(s[0]);
      assert Alnums(s[1..]) == [];
      assert AllSlugChars(s[1..]);
      OnlyDashesTrimAway(s[1..]);
    }
  }

  /** A suffix keeps the slug characters and the absence of "--". */
  lemma SuffixShape(s: string, k: nat)
    requires k <= |s| && AllSlugChars(s) && NoDoubleDash(s)
    ensures AllSlugChars(s[k..]) && NoDoubleDash(s[k..])
  {
    var r := s[k..];
    forall i | 0 <= i < |r|
      ensures IsSlugChar(r[i])
      ensures i < |r| - 1 ==> !(r[i] == '-' && r[i + 1] == '-')
    {
      assert r[i] == s[k + i];
      if i < |r| - 1 {
        assert r[i + 1] == s[k + i + 1];
      }
    }
  }

  /** A prefix keeps the slug characters and the absence of "--". */
  lemma PrefixShape(s: string, n: nat)
    requires n <= |s| && AllSlugChars(s) && NoDoubleDash(s)
    ensures AllSlugChars(s[..n]) && NoDoubleDash(s[..n])
  {
    var r := s[..n];
    assert forall i :: 0 <= i < |r| ==> r[i] == s[i];
  }

  /** What the collapse-and-strip steps leave of an already replaced string. */
  lemma SlugSteps(lowered: string)
    ensures var s := StripDashes(CollapseDashes(ReplaceInvalid(lowered)));
      && (s != [] ==> IsSlug(s))
      && Alnums(s) == Alnums(lowered)
      && (s == [] <==> Alnums(lowered) == [])
  {
    var replaced := ReplaceInvalid(lowered);
    AlnumsOfReplaced(lowered);
    var collapsed := CollapseDashes(replaced);
    CollapseDashesCorrect(replaced);
    var lead := TrimLeading(collapsed);
    TrimLeadingCorrect(collapsed);
    SuffixShape(collapsed, |collapsed| - |lead|);
    var s := TrimTrailing(lead);
    TrimTrailingCorrect(lead);
    PrefixShape(lead, |s|);
    if s != [] {
      assert s[0] == lead[0];
    }
    if Alnums(lowered) == [] {
      OnlyDashesTrimAway(collapsed);
    }
  }

  // ---- properties of the whole transform ----

  /** Every letter and digit of the lower-cased name survives, in order; only dashes separate them. */
  lemma SlugKeepsLettersAndDigits(name: string)
    requires Alnums(Lower(name)) != []
    ensures Alnums(CreateSlug(name)) == Alnums(Lower(name))
  {
    SlugSteps(Lower(name));
  }

  /** A name without any letter or digit (after lower-casing) gets the slug "feed". */
  lemma SlugDefaultsToFeed(name: string)
    requires Alnums(Lower(name)) == []
    ensures CreateSlug(name) == "feed"
  {
    SlugSteps(Lower(name));
  }

  lemma {:induction false} LowerKeepsSlugChars(s: string)
    requires AllSlugChars(s)
    ensures Lower(s) == s
  {
    if s != [] {
      assert IsSlugChar(s[0]);
      LowerKeepsSlugChars(s[1..]);
      assert s == [s[0]] + s[1..];
    }
  }

  lemma {:induction false} ReplaceKeepsSlugChars(s: string)
    requires AllSlugChars(s)
    ensures ReplaceInvalid(s) == s
  {
  }

  /** A slug is its own slug; so deriving a slug twice changes nothing. */
  lemma SlugIsFixedPoint(s: string)
    requires IsSlug(s)
    ensures CreateSlug(s) == s
  {
    LowerKeepsSlugChars(s);
    ReplaceKeepsSlugChars(s);
    CollapseDashesKeeps(s);
    assert TrimLeading(s) == s;
    assert TrimTrailing(s) == s;
  }

  lemma SlugIdempotent(name: string)
    ensures CreateSlug(CreateSlug(name)) == CreateSlug(name)
  {
    SlugIsFixedPoint(CreateSlug(name));
  }

  lemma CreateSlugNonEmpty(name: string, lowered: string)
    requires Lower(name) == lowered
    requires StripDashes(CollapseDashes(ReplaceInvalid(lowered))) != []
    ensures CreateSlug(name) == StripDashes(CollapseDashes(ReplaceInvalid(lowered)))
  {
  }

  // ---- a reference definition: the words of the name, joined by single dashes ----

  /** The length of the run of letters and digits that s starts with. */
  function AlnumPrefix(s: string): (n: nat)
    ensures n <= |s|
    ensures forall k :: 0 <= k < n ==> IsAlnum(s[k])
    ensures n < |s| ==> !IsAlnum(s[n])
  {
    if s == [] || !IsAlnum(s[0]) then 0 else 1 + AlnumPrefix(s[1..])
  }

  /** The maximal runs of letters and digits in s, in order (`re.findall('[a-z0-9]+', s)`). */
  function Words(s: string): (ws: seq<string>)
    ensures forall k :: 0 <= k < |ws| ==> ws[k] != []
    decreases |s|
  {
    if s == [] then []
    else
      var n := AlnumPrefix(s);
      if n == |s| then [s]
      else (if n == 0 then [] else [s[..n]]) + Words(s[n + 1..])
  }

  /** `'-'.join(ws)` */
  function JoinDash(ws: seq<string>): (r: string)
    ensures ws != [] && ws[0] != [] ==> r != []
  {
    if ws == [] then [] else if |ws| == 1 then ws[0] else ws[0] + "-" + JoinDash(ws[1..])
  }

  /** Collapsing does not touch a leading run of letters and digits. */
  lemma {:induction false} CollapseAfterWord(w: string, z: string)
    requires forall k :: 0 <= k < |w| ==> IsAlnum(w[k])
    ensures CollapseDashes(w + z) == w + CollapseDashes(z)
    decreases |w|
  {
    if w != [] {
      CollapseAfterWord(w[1..], z);
      var s := w + z;
      assert s[0] == w[0] && s[1..] == w[1..] + z;
      if |s| > 1 {
        assert s[0] != '-';
        assert CollapseDashes(s) == [w[0]] + CollapseDashes(w[1..] + z);
        assert [w[0]] + (w[1..] + CollapseDashes(z)) == w + CollapseDashes(z);
      } else {
        assert z == [] && s == w;
        assert CollapseDashes(s) == s && w + CollapseDashes(z) == w + [];
        assert w + [] == w;
      }
      assert w == [w[0]] + w[1..];
    } else {
      assert w + z == z && w + CollapseDashes(z) == CollapseDashes(z);
    }
  }

  lemma TrimLeadingTwice(s: string)
    ensures TrimLeading(TrimLeading(s)) == TrimLeading(s)
  {
    TrimLeadingCorrect(s);
  }

  /** A run of dashes collapses into the one dash it starts with. */
  lemma {:induction false} CollapseDashHead(y: string)
    ensures CollapseDashes("-" + y) == "-" + TrimLeading(CollapseDashes(y))
    decreases |y|
  {
    if y == [] {
      assert "-" + y == "-";
    } else if y[0] == '-' {
      CollapseDashHead(y[1..]);
      assert ("-" + y)[1..] == y && y == "-" + y[1..];
      TrimLeadingTwice(CollapseDashes(y[1..]));
    } else {
      assert ("-" + y)[1..] == y;
    }
  }

  lemma {:induction false} TrimTrailingAppend(u: string, v: string)
    requires TrimTrailing(v) != []
    ensures TrimTrailing(u + v) == u + TrimTrailing(v)
    decreases |v|
  {
    assert v != [];
    assert (u + v)[|u + v| - 1] == v[|v| - 1];
    if v[|v| - 1] == '-' {
      assert (u + v)[..|u + v| - 1] == u + v[..|v| - 1];
      TrimTrailingAppend(u, v[..|v| - 1]);
    }
  }

  lemma {:induction false} TrimTrailingKeepsHead(v: string)
    requires v != [] && v[0] != '-'
    ensures TrimTrailing(v) != []
    decreases |v|
  {
    if v[|v| - 1] == '-' {
      TrimTrailingKeepsHead(v[..|v| - 1]);
    }
  }

  /** A word followed by a dash: the word, then the rest's slug after one dash if that is non-empty. */
  lemma StripAfterWord(w: string, y: string)
    requires w != [] && forall k :: 0 <= k < |w| ==> IsAlnum(w[k])
    ensures var sy := StripDashes(CollapseDashes(y));
      StripDashes(CollapseDashes(w + "-" + y)) == if sy == [] then w else w + "-" + sy
  {
    var t := TrimLeading(CollapseDashes(y));
    CollapseAfterWord(w, "-" + y);
    CollapseDashHead(y);
    assert w + "-" + y == w + ("-" + y);
    var c := w + "-" + t;
    assert CollapseDashes(w + "-" + y) == c;
    assert TrimLeading(c) == c;
    if t == [] {
      assert c == w + "-";
      assert TrimTrailing(c) == TrimTrailing(w);
      assert TrimTrailing(w) == w;
    } else {
      TrimLeadingCorrect(CollapseDashes(y));
      TrimTrailingKeepsHead(t);
      TrimTrailingAppend(w + "-", t);
    }
  }

  /** A leading dash leaves no trace in the slug. */
  lemma StripAfterDash(y: string)
    ensures StripDashes(CollapseDashes("-" + y)) == StripDashes(CollapseDashes(y))
  {
    CollapseDashHead(y);
    TrimLeadingTwice(CollapseDashes(y));
  }

  /** Collapsing and stripping a string of slug characters joins its words with single dashes. */
  lemma {:induction false} StripCollapseIsJoinedWords(x: string)
    requires AllSlugChars(x)
    ensures StripDashes(CollapseDashes(x)) == JoinDash(Words(x))
    decreases |x|
  {
    if x == [] {
    } else {
      var n := AlnumPrefix(x);
      if n == |x| {
        CollapseAfterWord(x, []);
        assert x + [] == x;
        assert TrimLeading(x) == x;
        assert TrimTrailing(x) == x;
      } else {
        var w, y := x[..n], x[n + 1..];
        assert x[n] == '-';
        assert x == w + "-" + y;
        assert AllSlugChars(y) by {
          forall k | 0 <= k < |y| ensures IsSlugChar(y[k]) {
            assert y[k] == x[n + 1 + k];
          }
        }
        StripCollapseIsJoinedWords(y);
        if n == 0 {
          assert w == [];
          assert x == "-" + y;
          assert Words(x) == Words(y);
          StripAfterDash(y);
        } else {
          StripAfterWord(w, y);
          assert Words(x) == [w] + Words(y);
        }
      }
    }
  }

  /** Replacing the characters outside `[a-z0-9-]` by '-' leaves the words as they were. */
  lemma {:induction false} WordsOfReplaced(s: string)
    ensures Words(ReplaceInvalid(s)) == Words(s)
    decreases |s|
  {
    var r := ReplaceInvalid(s);
    if s != [] {
      var n := AlnumPrefix(s);
      assert AlnumPrefix(r) == n by {
        AlnumPrefixPointwise(s, r);
      }
      assert r[..n] == s[..n];
      if n < |s| {
        assert r[n + 1..] == ReplaceInvalid(s[n + 1..]);
        WordsOfReplaced(s[n + 1..]);
      } else {
        assert r == s;
      }
    }
  }

  /** Two strings that agree on where the letters and digits are, and on which they are, start with equally long runs. */
  lemma {:induction false} AlnumPrefixPointwise(s: string, r: string)
    requires |r| == |s|
    requires forall i :: 0 <= i < |s| ==> (IsAlnum(r[i]) <==> IsAlnum(s[i]))
    ensures AlnumPrefix(r) == AlnumPrefix(s)
    decreases |s|
  {
    if s != [] && IsAlnum(s[0]) {
      AlnumPrefixPointwise(s[1..], r[1..]);
    }
  }

  /**
   * The reference definition of a slug: the words (maximal runs of letters and
   * digits) of the lower-cased name joined by single dashes, or "feed" when the
   * name has none.
   */
  lemma CreateSlugIsJoinedWords(name: string)
    ensures var ws := Words(Lower(name));
      CreateSlug(name) == if ws == [] then "feed" else JoinDash(ws)
  {
    var lowered := Lower(name);
    var replaced := ReplaceInvalid(lowered);
    WordsOfReplaced(lowered);
    assert AllSlugChars(replaced);
    StripCollapseIsJoinedWords(replaced);
  }

  /** Lower-casing one character that lower-cases to exactly one character. */
  function LowerAscii(c: char): char {
    if 'A' <= c <= 'Z' then (c as int + 32) as char else c
  }

  /** Without U+0130 and the Kelvin sign, lower-casing works character by character. */
  lemma {:induction false} LowerPointwise(s: string)
    requires forall i :: 0 <= i < |s| ==> s[i] != 'İ' && s[i] != 'K'
    ensures |Lower(s)| == |s|
    ensures forall i :: 0 <= i < |s| ==> Lower(s)[i] == LowerAscii(s[i])
  {
    if s != [] {
      LowerPointwise(s[1..]);
      assert LowerChar(s[0]) == [LowerAscii(s[0])];
      assert Lower(s) == [LowerAscii(s[0])] + Lower(s[1..]);
    }
  }

  lemma LowerMyFeed()
    ensures Lower("My Feed") == "my feed"
  {
    var r := Lower("My Feed");
    LowerPointwise("My Feed");
    assert r[0] == 'm' && r[1] == 'y' && r[2] == ' ' && r[3] == 'f';
    assert r[4] == 'e' && r[5] == 'e' && r[6] == 'd';
  }

  lemma ReplaceMyFeed()
    ensures ReplaceInvalid("my feed") == "my-feed"
  {
    var r := ReplaceInvalid("my feed");
    assert !IsSlugChar(' ');
    assert |r| == 7 && r[2] == '-';
    assert r[0] == 'm' && r[1] == 'y' && r[3] == 'f' && r[4] == 'e' && r[5] == 'e' && r[6] == 'd';
  }

  lemma MyFeedIsSlug()
    ensures IsSlug("my-feed")
  {
    assert AllSlugChars("my-feed");
    assert NoDoubleDash("my-feed");
  }

  lemma CollapseAndStripMyFeed()
    ensures StripDashes(CollapseDashes(ReplaceInvalid("my feed"))) == "my-feed"
  {
    ReplaceMyFeed();
    MyFeedIsSlug();
    CollapseDashesKeeps("my-feed");
    assert TrimLeading("my-feed") == "my-feed";
    assert TrimTrailing("my-feed") == "my-feed";
  }

  /** "My Feed" and "my-feed" compete for the same public address. */
  lemma SlugCollisionExample()
    ensures CreateSlug("My Feed") == "my-feed" == CreateSlug("my-feed")
  {
    LowerMyFeed();
    CollapseAndStripMyFeed();
    CreateSlugNonEmpty("My Feed", "my feed");
    MyFeedIsSlug();
    SlugIsFixedPoint("my-feed");
  }
}
