/** Arabic text normalisation applied to every transcript
    (app/normalize_ar.py). Four whole-string rewrites run in order:
    tatweel deletion, diacritic deletion, alef unification, and whitespace
    collapse followed by a strip. Each becomes one recursive function on
    `seq<char>`; `Normalize` composes them. */
module NormalizeAr {

  /** Tatweel (kashida), U+0640: a purely typographic elongation mark. */
  const Tatweel: char := '\U{0640}'

  /** Bare alef, U+0627: the letter every alef form is mapped to. */
  const Alef: char := '\U{0627}'

  /** The character class of `DIACRITICS`: U+0617..U+061A (small high
      Quranic marks) and U+064B..U+0652 (fathatan through sukun). */
  predicate IsDiacritic(c: char): (r: bool)
    ensures r ==> '\U{0617}' <= c <= '\U{0652}'
    ensures r ==> c != Tatweel && !IsAlefVariant(c) && c != Alef
  {
    ('\U{0617}' <= c <= '\U{061A}') || ('\U{064B}' <= c <= '\U{0652}')
  }

  /** The hamza and madda alef forms that the class [إأآا] rewrites:
      U+0625, U+0623, U+0622. (Bare alef also belongs to the class, but
      rewriting it to itself changes nothing.) */
  predicate IsAlefVariant(c: char): (r: bool)
    ensures r ==> c != Alef && c != Tatweel
  {
    c == '\U{0625}' || c == '\U{0623}' || c == '\U{0622}'
  }

  /** Python's notion of whitespace, shared by `\s` in a str pattern and by
      `str.strip()`: the characters for which `str.isspace()` holds. */
  predicate IsSpace(c: char): (r: bool)
    ensures r ==> c != Tatweel && !IsDiacritic(c) && !IsAlefVariant(c) && c != Alef
    ensures r ==> c <= '\U{3000}'
  {
    ('\U{0009}' <= c <= '\U{000D}') || ('\U{001C}' <= c <= '\U{001F}') ||
    c == ' ' || c == '\U{0085}' || c == '\U{00A0}' || c == '\U{1680}' ||
    ('\U{2000}' <= c <= '\U{200A}') || c == '\U{2028}' || c == '\U{2029}' ||
    c == '\U{202F}' || c == '\U{205F}' || c == '\U{3000}'
  }

  // ---------------------------------------------------------------------
  // The three character-level rewrites
  // ---------------------------------------------------------------------

  /** `text.replace(tatweel, "")`. */
  function RemoveTatweel(s: seq<char>): (r: seq<char>)
    ensures |r| <= |s|
  {
    if s == [] then []
    else (if s[0] == Tatweel then [] else [s[0]]) + RemoveTatweel(s[1..])
  }

  /** Exactly the tatweel characters go. */
  lemma {:induction false} RemoveTatweelMembers(s: seq<char>)
    ensures forall c :: c in RemoveTatweel(s) <==> c in s && c != Tatweel
  {
    if s != [] {
      RemoveTatweelMembers(s[1..]);
      assert forall c :: c in s <==> c == s[0] || c in s[1..];
    }
  }

  /** `DIACRITICS.sub("", text)`. */
  function RemoveDiacritics(s: seq<char>): (r: seq<char>)
    ensures |r| <= |s|
  {
    if s == [] then []
    else (if IsDiacritic(s[0]) then [] else [s[0]]) + RemoveDiacritics(s[1..])
  }

  /** Exactly the diacritics go. */
  lemma {:induction false} RemoveDiacriticsMembers(s: seq<char>)
    ensures forall c :: c in RemoveDiacritics(s) <==> c in s && !IsDiacritic(c)
  {
    if s != [] {
      RemoveDiacriticsMembers(s[1..]);
      assert forall c :: c in s <==> c == s[0] || c in s[1..];
    }
  }

  /** `re.sub("[إأآا]", "ا", text)`: a character-for-character map. */
  function UnifyAlef(s: seq<char>): (r: seq<char>)
    ensures |r| == |s|
  {
    if s == [] then []
    else [if IsAlefVariant(s[0]) then Alef else s[0]] + UnifyAlef(s[1..])
  }

  /** Each character is mapped on its own, in place. */
  lemma {:induction false} UnifyAlefPointwise(s: seq<char>)
    ensures forall i :: 0 <= i < |s| ==> UnifyAlef(s)[i] == (if IsAlefVariant(s[i]) then Alef else s[i])
  {
    if s != [] {
      UnifyAlefPointwise(s[1..]);
      var r := UnifyAlef(s);
      assert forall i :: 1 <= i < |s| ==> r[i] == UnifyAlef(s[1..])[i - 1] && s[i] == s[1..][i - 1];
    }
  }

  /** Deleting a character is the same on a whole string as on its two
      halves: the rewrites above keep the order of what they keep. */
  lemma {:induction false} RemoveTatweelAppend(a: seq<char>, b: seq<char>)
    ensures RemoveTatweel(a + b) == RemoveTatweel(a) + RemoveTatweel(b)
  {
    if a != [] {
      assert (a + b)[1..] == a[1..] + b;
      RemoveTatweelAppend(a[1..], b);
    } else {
      assert a + b == b;
    }
  }

  lemma {:induction false} RemoveDiacriticsAppend(a: seq<char>, b: seq<char>)
    ensures RemoveDiacritics(a + b) == RemoveDiacritics(a) + RemoveDiacritics(b)
  {
    if a != [] {
      assert (a + b)[1..] == a[1..] + b;
      RemoveDiacriticsAppend(a[1..], b);
    } else {
      assert a + b == b;
    }
  }

  /** A string without tatweel is left alone. */
  lemma {:induction false} RemoveTatweelFixpoint(s: seq<char>)
    requires Tatweel !in s
    ensures RemoveTatweel(s) == s
  {
    if s != [] {
      assert s[0] in s;
      assert forall c :: c in s[1..] ==> c in s;
      RemoveTatweelFixpoint(s[1..]);
    }
  }

  /** A string without diacritics is left alone. */
  lemma {:induction false} RemoveDiacriticsFixpoint(s: seq<char>)
    requires forall c :: c in s ==> !IsDiacritic(c)
    ensures RemoveDiacritics(s) == s
  {
    if s != [] {
      assert s[0] in s;
      assert forall c :: c in s[1..] ==> c in s;
      RemoveDiacriticsFixpoint(s[1..]);
    }
  }

  /** After unification no hamza or madda alef is left, and a string
      without them is left alone. */
  lemma UnifyAlefRemovesVariants(s: seq<char>)
    ensures forall c :: c in UnifyAlef(s) ==> !IsAlefVariant(c)
    ensures (forall c :: c in s ==> !IsAlefVariant(c)) ==> UnifyAlef(s) == s
  {
    var r := UnifyAlef(s);
    UnifyAlefPointwise(s);
    forall c | c in r
      ensures !IsAlefVariant(c)
    {
      var i :| 0 <= i < |r| && r[i] == c;
    }
    if forall c :: c in s ==> !IsAlefVariant(c) {
      forall i | 0 <= i < |s|
        ensures r[i] == s[i]
      {
        assert s[i] in s;
      }
    }
  }

  // ---------------------------------------------------------------------
  // Whitespace: `re.sub(r"\s+", " ", text).strip()`
  // ---------------------------------------------------------------------

  /** The non-whitespace characters of s, in order. */
  function NonSpace(s: seq<char>): (r: seq<char>)
    ensures |r| <= |s|
  {
    if s == [] then []
    else (if IsSpace(s[0]) then [] else [s[0]]) + NonSpace(s[1..])
  }

  /** NonSpace keeps exactly the non-whitespace characters. */
  lemma {:induction false} NonSpaceMembers(s: seq<char>)
    ensures forall c :: c in NonSpace(s) <==> c in s && !IsSpace(c)
  {
    if s != [] {
      NonSpaceMembers(s[1..]);
      assert forall c :: c in s <==> c == s[0] || c in s[1..];
    }
  }

  lemma {:induction false} NonSpaceAppend(a: seq<char>, b: seq<char>)
    ensures NonSpace(a + b) == NonSpace(a) + NonSpace(b)
  {
    if a != [] {
      assert (a + b)[1..] == a[1..] + b;
      NonSpaceAppend(a[1..], b);
    } else {
      assert a + b == b;
    }
  }

  /** How many whitespace characters s starts with. */
  function LeadingSpaces(s: seq<char>): (n: nat)
    ensures n <= |s|
    ensures n == |s| || !IsSpace(s[n])
  {
    if s != [] && IsSpace(s[0]) then
      var m := LeadingSpaces(s[1..]);
      assert m == |s| - 1 || s[m + 1] == s[1..][m];
      m + 1
    else 0
  }

  /** ... and all of them are: the count is that of the longest
      all-whitespace prefix. */
  lemma {:induction false} LeadingSpacesAreSpace(s: seq<char>)
    ensures forall i :: 0 <= i < LeadingSpaces(s) ==> IsSpace(s[i])
  {
    if s != [] && IsSpace(s[0]) {
      LeadingSpacesAreSpace(s[1..]);
      assert forall i :: 1 <= i < |s| ==> s[i] == s[1..][i - 1];
    }
  }

  /** How many whitespace characters s ends with. */
  function TrailingSpaces(s: seq<char>): (n: nat)
    ensures n <= |s|
    ensures n == |s| || !IsSpace(s[|s| - n - 1])
  {
    if s != [] && IsSpace(s[|s| - 1]) then
      var m := TrailingSpaces(s[..|s| - 1]);
      assert m == |s| - 1 || s[|s| - m - 2] == s[..|s| - 1][|s| - m - 2];
      m + 1
    else 0
  }

  /** ... and all of them are: the count is that of the longest
      all-whitespace suffix. */
  lemma {:induction false} TrailingSpacesAreSpace(s: seq<char>)
    ensures forall i :: |s| - TrailingSpaces(s) <= i < |s| ==> IsSpace(s[i])
  {
    if s != [] && IsSpace(s[|s| - 1]) {
      TrailingSpacesAreSpace(s[..|s| - 1]);
      assert forall i :: 0 <= i < |s| - 1 ==> s[i] == s[..|s| - 1][i];
    }
  }

  /** `str.lstrip()`. */
  function TrimLeft(s: seq<char>): (r: seq<char>)
    ensures |r| <= |s|
    ensures s != [] && IsSpace(s[0]) ==> |r| < |s|
    ensures r == [] || !IsSpace(r[0])
  {
    s[LeadingSpaces(s)..]
  }

  /** `str.rstrip()`. */
  function TrimRight(s: seq<char>): (r: seq<char>)
    ensures |r| <= |s|
    ensures r == [] || !IsSpace(r[|r| - 1])
  {
    s[..|s| - TrailingSpaces(s)]
  }

  /** No whitespace at either end. */
  predicate IsStripped(s: seq<char>) {
    s == [] || (!IsSpace(s[0]) && !IsSpace(s[|s| - 1]))
  }

  /** `str.strip()`. */
  function Strip(s: seq<char>): (r: seq<char>)
    ensures |r| <= |s|
    ensures IsStripped(r)
  {
    TrimRight(TrimLeft(s))
  }

  /** Strip keeps the piece of s between its leading and its trailing
      whitespace. */
  lemma StripIsSlice(s: seq<char>)
    ensures LeadingSpaces(s) + |Strip(s)| <= |s|
    ensures Strip(s) == s[LeadingSpaces(s)..LeadingSpaces(s) + |Strip(s)|]
  {
    var k := LeadingSpaces(s);
    var l := TrimLeft(s);
    var m := |l| - TrailingSpaces(l);
    assert Strip(s) == l[..m];
    assert l == s[k..];
    SliceOfSuffix(s, k, m);
  }

  lemma SliceOfSuffix(s: seq<char>, k: nat, m: nat)
    requires k + m <= |s|
    ensures s[k..][..m] == s[k..k + m]
  {
  }

  /** Leading whitespace carries no non-whitespace character. */
  lemma TrimLeftKeepsNonSpace(s: seq<char>)
    ensures NonSpace(TrimLeft(s)) == NonSpace(s)
  {
    var n := LeadingSpaces(s);
    var p, q := s[..n], s[n..];
    assert NonSpace(p) == [] by {
      LeadingSpacesAreSpace(s);
      forall i | 0 <= i < |p|
        ensures IsSpace(p[i])
      {
        assert p[i] == s[i];
      }
      AllSpaceHasNoNonSpace(p);
    }
    assert s == p + q;
    NonSpaceAppend(p, q);
  }

  /** Trailing whitespace carries no non-whitespace character. */
  lemma TrimRightKeepsNonSpace(s: seq<char>)
    ensures NonSpace(TrimRight(s)) == NonSpace(s)
  {
    var n := |s| - TrailingSpaces(s);
    var p, q := s[..n], s[n..];
    assert NonSpace(q) == [] by {
      TrailingSpacesAreSpace(s);
      forall i | 0 <= i < |q|
        ensures IsSpace(q[i])
      {
        assert q[i] == s[n + i];
      }
      AllSpaceHasNoNonSpace(q);
    }
    assert s == p + q;
    NonSpaceAppend(p, q);
  }

  lemma {:induction false} AllSpaceHasNoNonSpace(s: seq<char>)
    requires forall i :: 0 <= i < |s| ==> IsSpace(s[i])
    ensures NonSpace(s) == []
  {
    if s != [] {
      AllSpaceHasNoNonSpace(s[1..]);
    }
  }

  /** Stripping removes only whitespace. */
  lemma StripKeepsNonSpace(s: seq<char>)
    ensures NonSpace(Strip(s)) == NonSpace(s)
  {
    TrimLeftKeepsNonSpace(s);
    TrimRightKeepsNonSpace(TrimLeft(s));
  }

  /** A string that has no whitespace at its ends is its own strip. */
  lemma StripFixpoint(s: seq<char>)
    requires IsStripped(s)
    ensures Strip(s) == s
  {
    assert LeadingSpaces(s) == 0;
    assert TrimLeft(s) == s;
    assert TrailingSpaces(s) == 0;
  }

  /** Every whitespace character is a plain space and no two are adjacent:
      the shape `re.sub(r"\s+", " ", ·)` leaves behind. */
  predicate IsCollapsed(s: seq<char>) {
    (forall i :: 0 <= i < |s| && IsSpace(s[i]) ==> s[i] == ' ') &&
    (forall i :: 0 < i < |s| && IsSpace(s[i]) ==> !IsSpace(s[i - 1]))
  }

  /** `re.sub(r"\s+", " ", text)`: every maximal run of whitespace becomes
      one space. */
  function CollapseSpace(s: seq<char>): (r: seq<char>)
    ensures |r| <= |s|
    ensures s != [] ==> r != [] && (IsSpace(r[0]) <==> IsSpace(s[0]))
    decreases |s|
  {
    if s == [] then []
    else if IsSpace(s[0]) then [' '] + CollapseSpace(TrimLeft(s))
    else [s[0]] + CollapseSpace(s[1..])
  }

  /** What the collapse leaves: single plain spaces, never two in a row. */
  lemma {:induction false} CollapseSpaceIsCollapsed(s: seq<char>)
    ensures IsCollapsed(CollapseSpace(s))
    decreases |s|
  {
    if s != [] {
      if IsSpace(s[0]) {
        CollapseSpaceIsCollapsed(TrimLeft(s));
        ConsCollapsed(' ', CollapseSpace(TrimLeft(s)));
      } else {
        CollapseSpaceIsCollapsed(s[1..]);
        ConsCollapsed(s[0], CollapseSpace(s[1..]));
      }
    }
  }

  lemma ConsCollapsed(x: char, t: seq<char>)
    requires IsCollapsed(t)
    requires IsSpace(x) ==> x == ' ' && (t == [] || !IsSpace(t[0]))
    ensures IsCollapsed([x] + t)
  {
    var r := [x] + t;
    assert forall i :: 0 < i < |r| ==> r[i] == t[i - 1];
  }

  /** The collapse brings in no character but the plain space. */
  lemma {:induction false} CollapseSpaceMembers(s: seq<char>)
    ensures forall c :: c in CollapseSpace(s) ==> c in s || c == ' '
    decreases |s|
  {
    if s != [] {
      var t := if IsSpace(s[0]) then TrimLeft(s) else s[1..];
      CollapseSpaceMembers(t);
      assert t == s[|s| - |t|..];
      SliceMembers(s, |s| - |t|, |s|);
    }
  }

  /** The whitespace collapse removes and inserts only whitespace. */
  lemma {:induction false} CollapseSpaceKeepsNonSpace(s: seq<char>)
    ensures NonSpace(CollapseSpace(s)) == NonSpace(s)
    decreases |s|
  {
    if s != [] {
      if IsSpace(s[0]) {
        var t := TrimLeft(s);
        CollapseSpaceKeepsNonSpace(t);
        TrimLeftKeepsNonSpace(s);
        assert ([' '] + CollapseSpace(t))[1..] == CollapseSpace(t);
      } else {
        CollapseSpaceKeepsNonSpace(s[1..]);
        assert ([s[0]] + CollapseSpace(s[1..]))[1..] == CollapseSpace(s[1..]);
      }
    }
  }

  /** An already collapsed string is left alone. */
  lemma {:induction false} CollapseSpaceFixpoint(s: seq<char>)
    requires IsCollapsed(s)
    ensures CollapseSpace(s) == s
    decreases |s|
  {
    if s != [] {
      assert IsCollapsed(s[1..]);
      if IsSpace(s[0]) {
        assert s[1..] == [] || !IsSpace(s[1..][0]);
        assert TrimLeft(s[1..]) == s[1..];
        assert TrimLeft(s) == s[1..];
      }
      CollapseSpaceFixpoint(s[1..]);
    }
  }

  /** A non-space character ends the leading whitespace count, whatever
      follows it. */
  lemma {:induction false} LeadingSpacesAppend(a: seq<char>, t: seq<char>)
    requires LeadingSpaces(a) < |a|
    ensures LeadingSpaces(a + t) == LeadingSpaces(a)
    decreases |a|
  {
    if IsSpace(a[0]) {
      assert (a + t)[1..] == a[1..] + t;
      LeadingSpacesAppend(a[1..], t);
    }
  }

  /** A whitespace run followed by a non-space character (or nothing) is
      counted whole. */
  lemma {:induction false} LeadingSpacesOfRun(w: seq<char>, b: seq<char>)
    requires forall i :: 0 <= i < |w| ==> IsSpace(w[i])
    requires b == [] || !IsSpace(b[0])
    ensures LeadingSpaces(w + b) == |w|
    decreases |w|
  {
    if w != [] {
      assert (w + b)[1..] == w[1..] + b;
      LeadingSpacesOfRun(w[1..], b);
    } else {
      assert w + b == b;
    }
  }

  /** No whitespace run straddles a boundary that follows a non-space
      character, so the collapse works on both sides separately. */
  lemma {:induction false} CollapseSpaceAppend(a: seq<char>, t: seq<char>)
    requires a == [] || !IsSpace(a[|a| - 1])
    ensures CollapseSpace(a + t) == CollapseSpace(a) + CollapseSpace(t)
    decreases |a|
  {
    if a == [] {
      assert a + t == t;
    } else {
      var head, rest := CollapseSpaceFirst(a, t);
      CollapseSpaceAppend(rest, t);
      AppendAssoc([head], CollapseSpace(rest), CollapseSpace(t));
    }
  }

  /** Concatenation is associative (stated once, so that the proofs above
      need not rediscover it among the unfoldings of the collapse). */
  lemma AppendAssoc(p: seq<char>, q: seq<char>, r: seq<char>)
    ensures p + (q + r) == (p + q) + r
  {
  }

  /** One unfolding of the collapse on a and on a + t: the same first
      character comes out, and the same rest of a is left to collapse. */
  lemma CollapseSpaceFirst(a: seq<char>, t: seq<char>) returns (head: char, rest: seq<char>)
    requires a != [] && !IsSpace(a[|a| - 1])
    ensures |rest| < |a|
    ensures rest == [] || !IsSpace(rest[|rest| - 1])
    ensures CollapseSpace(a) == [head] + CollapseSpace(rest)
    ensures CollapseSpace(a + t) == [head] + CollapseSpace(rest + t)
  {
    var k := if IsSpace(a[0]) then LeadingSpaces(a) else 1;
    head := if IsSpace(a[0]) then ' ' else a[0];
    assert 0 < k < |a| || k == |a| == 1 by {
      LeadingSpacesAreSpace(a);
    }
    rest := a[k..];
    assert (a + t)[0] == a[0];
    if IsSpace(a[0]) {
      LeadingSpacesAppend(a, t);
    }
    assert (a + t)[k..] == rest + t;
  }

  /** `re.sub(r"\s+", " ", ·)` itself: a maximal whitespace run, whatever
      its length and characters, becomes exactly one space, and the text on
      either side is collapsed on its own. With `CollapseSpaceFixpoint`
      (text without whitespace is kept) this fixes the collapse on every
      input. */
  lemma CollapseSpaceRun(a: seq<char>, w: seq<char>, b: seq<char>)
    requires a == [] || !IsSpace(a[|a| - 1])
    requires w != [] && forall i :: 0 <= i < |w| ==> IsSpace(w[i])
    requires b == [] || !IsSpace(b[0])
    ensures CollapseSpace(a + w + b) == CollapseSpace(a) + [' '] + CollapseSpace(b)
  {
    AppendAssoc(a, w, b);
    CollapseSpaceAppend(a, w + b);
    CollapseSpaceLeadingRun(w, b);
    AppendAssoc(CollapseSpace(a), [' '], CollapseSpace(b));
  }

  /** A leading whitespace run becomes one space. */
  lemma CollapseSpaceLeadingRun(w: seq<char>, b: seq<char>)
    requires w != [] && forall i :: 0 <= i < |w| ==> IsSpace(w[i])
    requires b == [] || !IsSpace(b[0])
    ensures CollapseSpace(w + b) == [' '] + CollapseSpace(b)
  {
    var t := w + b;
    assert TrimLeft(t) == b by {
      LeadingSpacesOfRun(w, b);
      assert t[|w|..] == b;
    }
    assert IsSpace(t[0]);
  }

  /** Any piece of a collapsed string is collapsed. */
  lemma CollapsedSlice(s: seq<char>, i: nat, j: nat)
    requires IsCollapsed(s) && i <= j <= |s|
    ensures IsCollapsed(s[i..j])
  {
    var t := s[i..j];
    assert forall k :: 0 <= k < |t| ==> t[k] == s[i + k];
  }

  // ---------------------------------------------------------------------
  // The whole normaliser
  // ---------------------------------------------------------------------

  /** `normalize_ar(text)`. */
  function Normalize(text: seq<char>): (r: seq<char>)
    ensures |r| <= |text|
    ensures IsStripped(r)
  {
    Strip(CollapseSpace(UnifyAlef(RemoveDiacritics(RemoveTatweel(text)))))
  }

  /** A character none of the three rewrites would touch. */
  predicate IsClean(c: char) {
    c != Tatweel && !IsDiacritic(c) && !IsAlefVariant(c)
  }

  /** A string normalize_ar leaves unchanged: no tatweel, no diacritic, no
      hamza or madda alef, whitespace only as single inner spaces. */
  predicate IsNormalized(s: seq<char>) {
    IsStripped(s) && IsCollapsed(s) && forall c :: c in s ==> IsClean(c)
  }

  /** After the three character rewrites only clean characters are left. */
  lemma RewritesLeaveClean(text: seq<char>)
    ensures forall x :: x in UnifyAlef(RemoveDiacritics(RemoveTatweel(text))) ==> IsClean(x)
  {
    var b := RemoveDiacritics(RemoveTatweel(text));
    var c := UnifyAlef(b);
    UnifyAlefRemovesVariants(b);
    UnifyAlefPointwise(b);
    RemoveTatweelMembers(text);
    RemoveDiacriticsMembers(RemoveTatweel(text));
    forall x | x in c
      ensures IsClean(x)
    {
      var j :| 0 <= j < |c| && c[j] == x;
      if !IsAlefVariant(b[j]) {
        assert b[j] in b;
      }
    }
  }

  /** Stripping a collapsed string leaves it collapsed. */
  lemma StripKeepsCollapsed(s: seq<char>)
    requires IsCollapsed(s)
    ensures IsCollapsed(Strip(s))
  {
    StripIsSlice(s);
    CollapsedSlice(s, LeadingSpaces(s), LeadingSpaces(s) + |Strip(s)|);
  }

  /** Stripping only removes characters. */
  lemma StripMembers(s: seq<char>)
    ensures forall x :: x in Strip(s) ==> x in s
  {
    StripIsSlice(s);
    SliceMembers(s, LeadingSpaces(s), LeadingSpaces(s) + |Strip(s)|);
  }

  lemma SliceMembers(s: seq<char>, i: nat, j: nat)
    requires i <= j <= |s|
    ensures forall x :: x in s[i..j] ==> x in s
  {
    forall x | x in s[i..j]
      ensures x in s
    {
      var k :| 0 <= k < j - i && s[i..j][k] == x;
      assert s[i + k] == x;
    }
  }

  /** Every output of normalize_ar has that shape. */
  lemma NormalizeIsNormalized(text: seq<char>)
    ensures IsNormalized(Normalize(text))
  {
    var d := CollapseSpace(UnifyAlef(RemoveDiacritics(RemoveTatweel(text))));
    RewritesLeaveClean(text);
    CollapseSpaceMembers(UnifyAlef(RemoveDiacritics(RemoveTatweel(text))));
    CollapseSpaceIsCollapsed(UnifyAlef(RemoveDiacritics(RemoveTatweel(text))));
    StripKeepsCollapsed(d);
    StripMembers(d);
    assert IsClean(' ');
  }

  /** Normalizing a normalized string changes nothing. */
  lemma NormalizedIsFixpoint(s: seq<char>)
    requires IsNormalized(s)
    ensures Normalize(s) == s
  {
    assert RemoveTatweel(s) == s by {
      RemoveTatweelFixpoint(s);
    }
    assert RemoveDiacritics(s) == s by {
      RemoveDiacriticsFixpoint(s);
    }
    assert UnifyAlef(s) == s by {
      UnifyAlefRemovesVariants(s);
    }
    assert CollapseSpace(s) == s by {
      CollapseSpaceFixpoint(s);
    }
    StripFixpoint(s);
  }

  /** normalize_ar is idempotent, and its fixpoints are exactly the
      normalized strings. */
  lemma NormalizeIdempotent(text: seq<char>)
    ensures Normalize(Normalize(text)) == Normalize(text)
    ensures Normalize(text) == text <==> IsNormalized(text)
  {
    NormalizeIsNormalized(text);
    NormalizedIsFixpoint(Normalize(text));
    if IsNormalized(text) {
      NormalizedIsFixpoint(text);
    }
  }

  lemma {:induction false} NonSpaceRemoveTatweel(s: seq<char>)
    ensures NonSpace(RemoveTatweel(s)) == RemoveTatweel(NonSpace(s))
  {
    if s != [] {
      NonSpaceRemoveTatweel(s[1..]);
      var h := if s[0] == Tatweel then [] else [s[0]];
      NonSpaceAppend(h, RemoveTatweel(s[1..]));
      var g := if IsSpace(s[0]) then [] else [s[0]];
      RemoveTatweelAppend(g, NonSpace(s[1..]));
    }
  }

  lemma {:induction false} NonSpaceRemoveDiacritics(s: seq<char>)
    ensures NonSpace(RemoveDiacritics(s)) == RemoveDiacritics(NonSpace(s))
  {
    if s != [] {
      NonSpaceRemoveDiacritics(s[1..]);
      var h := if IsDiacritic(s[0]) then [] else [s[0]];
      NonSpaceAppend(h, RemoveDiacritics(s[1..]));
      var g := if IsSpace(s[0]) then [] else [s[0]];
      RemoveDiacriticsAppend(g, NonSpace(s[1..]));
    }
  }

  lemma {:induction false} NonSpaceUnifyAlef(s: seq<char>)
    ensures NonSpace(UnifyAlef(s)) == UnifyAlef(NonSpace(s))
  {
    if s != [] {
      var t := s[1..];
      NonSpaceUnifyAlef(t);
      var h := [if IsAlefVariant(s[0]) then Alef else s[0]];
      assert UnifyAlef(s) == h + UnifyAlef(t);
      NonSpaceAppend(h, UnifyAlef(t));
      assert IsSpace(h[0]) <==> IsSpace(s[0]);
      assert NonSpace(h) == (if IsSpace(h[0]) then [] else h) + NonSpace([]);
      if IsSpace(s[0]) {
        assert NonSpace(s) == NonSpace(t);
      } else {
        assert NonSpace(s) == [s[0]] + NonSpace(t);
        assert ([s[0]] + NonSpace(t))[1..] == NonSpace(t);
        assert UnifyAlef(NonSpace(s)) == h + UnifyAlef(NonSpace(t));
      }
    }
  }

  /** The words survive: the output's non-whitespace characters are the
      input's, in order, after deleting tatweel and diacritics and mapping
      the alef forms. */
  lemma NormalizeKeepsWords(text: seq<char>)
    ensures NonSpace(Normalize(text)) == UnifyAlef(RemoveDiacritics(RemoveTatweel(NonSpace(text))))
  {
    var a := RemoveTatweel(text);
    var b := RemoveDiacritics(a);
    var c := UnifyAlef(b);
    var d := CollapseSpace(c);
    StripKeepsNonSpace(d);
    CollapseSpaceKeepsNonSpace(c);
    NonSpaceUnifyAlef(b);
    NonSpaceRemoveDiacritics(a);
    NonSpaceRemoveTatweel(text);
  }

  /** Words are never glued together: two normalized pieces separated by
      any non-empty whitespace run come out joined by exactly one space. */
  lemma NormalizeJoinsWithOneSpace(a: seq<char>, w: seq<char>, b: seq<char>)
    requires a != [] && IsNormalized(a)
    requires b != [] && IsNormalized(b)
    requires w != [] && forall i :: 0 <= i < |w| ==> IsSpace(w[i])
    ensures Normalize(a + w + b) == a + [' '] + b
  {
    var s := a + w + b;
    assert forall c :: c in s ==> IsClean(c) by {
      forall c | c in s
        ensures IsClean(c)
      {
        if c !in a && c !in b {
          var i :| 0 <= i < |w| && w[i] == c;
          assert IsSpace(c);
        }
      }
    }
    assert RemoveTatweel(s) == s by {
      RemoveTatweelFixpoint(s);
    }
    assert RemoveDiacritics(s) == s by {
      RemoveDiacriticsFixpoint(s);
    }
    assert UnifyAlef(s) == s by {
      UnifyAlefRemovesVariants(s);
    }
    var j := a + [' '] + b;
    assert CollapseSpace(s) == j by {
      CollapseSpaceRun(a, w, b);
      CollapseSpaceFixpoint(a);
      CollapseSpaceFixpoint(b);
    }
    assert IsStripped(j) by {
      assert j[0] == a[0];
      assert j[|j| - 1] == b[|b| - 1];
    }
    StripFixpoint(j);
  }

  /** A character that normalize_ar drops outright. */
  predicate Erased(c: char) {
    IsSpace(c) || c == Tatweel || IsDiacritic(c)
  }

  /** The output is empty exactly when every input character is whitespace,
      tatweel or a diacritic; in particular "" and whitespace-only input
      give "". */
  lemma NormalizeEmpty(text: seq<char>)
    ensures Normalize(text) == [] <==> forall i :: 0 <= i < |text| ==> Erased(text[i])
  {
    var r := Normalize(text);
    var e := RemoveDiacritics(RemoveTatweel(NonSpace(text)));
    NormalizeKeepsWords(text);
    StrippedEmpty(r);
    WordsEmpty(text);
    assert |UnifyAlef(e)| == |e|;
  }

  /** A string with no whitespace at its ends is empty exactly when it has
      no non-whitespace character. */
  lemma StrippedEmpty(s: seq<char>)
    requires IsStripped(s)
    ensures s == [] <==> NonSpace(s) == []
  {
    if s != [] {
      NonSpaceMembers(s);
      assert s[0] in NonSpace(s);
    }
  }

  /** Deleting whitespace, tatweel and diacritics leaves nothing exactly when
      every character was one of those. */
  lemma WordsEmpty(text: seq<char>)
    ensures RemoveDiacritics(RemoveTatweel(NonSpace(text))) == [] <==>
            forall i :: 0 <= i < |text| ==> Erased(text[i])
  {
    var e := RemoveDiacritics(RemoveTatweel(NonSpace(text)));
    NonSpaceMembers(text);
    RemoveTatweelMembers(NonSpace(text));
    RemoveDiacriticsMembers(RemoveTatweel(NonSpace(text)));
    assert forall c :: c in e <==> c in text && !Erased(c);
    if e != [] {
      assert e[0] in e;
    } else {
      forall i | 0 <= i < |text|
        ensures Erased(text[i])
      {
        assert text[i] in text;
      }
    }
  }
}
