/**
 * Slug generation for product names: lower-case the name, drop combining
 * accents, turn each run of white space into a dash, drop every character
 * other than a-z, 0-9 and the dash, collapse runs of dashes and trim dashes
 * at both ends.
 *
 * Lower-casing covers the ASCII letters only, and accent removal drops the
 * combining diacritical marks U+0300..U+036F without the Unicode
 * decomposition and recomposition around it.
 */
module Extensions {

  /**
   * White space as the framework classifies it; the regular-expression class
   * `\s` is the same set. No white-space character belongs to a slug.
   */
  predicate IsWhiteSpace(c: char): (b: bool)
    ensures b ==> !IsSlugChar(c)
    ensures c == ' ' || c == '\t' || c == '\n' || c == '\r' ==> b
  {
    || c == ' '
    || '\t' <= c <= '\r'
    || c == '\U{85}' || c == '\U{A0}' || c == '\U{1680}'
    || '\U{2000}' <= c <= '\U{200A}'
    || c == '\U{2028}' || c == '\U{2029}' || c == '\U{202F}' || c == '\U{205F}' || c == '\U{3000}'
  }

  /** True for the empty string and for strings of white space only; such a string holds no slug character. */
  predicate IsNullOrWhiteSpace(s: string): (b: bool)
    ensures s == [] ==> b
    ensures b ==> forall i :: 0 <= i < |s| ==> !IsSlugChar(s[i])
  {
    forall i :: 0 <= i < |s| ==> IsWhiteSpace(s[i])
  }

  predicate IsAsciiLetterOrDigit(c: char)
  {
    'a' <= c <= 'z' || 'A' <= c <= 'Z' || '0' <= c <= '9'
  }

  /** The characters a slug word is made of. */
  predicate IsWordChar(c: char)
  {
    'a' <= c <= 'z' || '0' <= c <= '9'
  }

  predicate IsDash(c: char)
  {
    c == '-'
  }

  predicate IsSlugChar(c: char)
  {
    IsWordChar(c) || IsDash(c)
  }

  predicate IsNonSpacingMark(c: char)
  {
    '\U{300}' <= c <= '\U{36F}'
  }

  predicate IsNotMark(c: char)
  {
    !IsNonSpacingMark(c)
  }

  predicate NoDoubleDash(s: string)
  {
    forall i :: 0 <= i < |s| - 1 ==> !(s[i] == '-' && s[i + 1] == '-')
  }

  predicate NoEdgeDash(s: string)
  {
    s != [] ==> s[0] != '-' && s[|s| - 1] != '-'
  }

  /** The output grammar of a slug. */
  predicate IsSlug(s: string)
  {
    && (forall i :: 0 <= i < |s| ==> IsSlugChar(s[i]))
    && NoDoubleDash(s)
    && NoEdgeDash(s)
  }

  function ToLower(c: char): char
  {
    if 'A' <= c <= 'Z' then (c as int + 32) as char else c
  }

  /**
   * Lower-cases the ASCII letters: no upper-case ASCII letter remains, every
   * other character is kept, and a position holds a-z or 0-9 afterwards
   * exactly when it held an ASCII letter or digit before.
   */
  function ToLowerInvariant(s: string): (r: string)
    ensures |r| == |s|
    ensures forall i :: 0 <= i < |r| ==> !('A' <= r[i] <= 'Z')
    ensures forall i :: 0 <= i < |s| && !('A' <= s[i] <= 'Z') ==> r[i] == s[i]
    ensures forall i :: 0 <= i < |s| ==> (IsWordChar(r[i]) <==> IsAsciiLetterOrDigit(s[i]))
  {
    seq(|s|, i requires 0 <= i < |s| => ToLower(s[i]))
  }

  /**
   * The characters of `s` that `keep` accepts, in order: never longer than
   * `s`, only accepted characters, and all of `s` when it accepts them all.
   */
  function Filter(s: string, keep: char -> bool): (r: string)
    ensures |r| <= |s|
    ensures forall i :: 0 <= i < |r| ==> keep(r[i])
    ensures (forall i :: 0 <= i < |s| ==> keep(s[i])) ==> r == s
  {
    if s == [] then [] else (if keep(s[0]) then [s[0]] else []) + Filter(s[1..], keep)
  }

  function StripMarks(s: string): string
  {
    Filter(s, IsNotMark)
  }

  /** `s` without its longest prefix of characters that satisfy `p`. */
  function DropWhile(s: string, p: char -> bool): (r: string)
    ensures |r| <= |s| && r == s[|s| - |r|..]
    ensures forall i :: 0 <= i < |s| - |r| ==> p(s[i])
    ensures r != [] ==> !p(r[0])
  {
    if s != [] && p(s[0]) then
      var r := DropWhile(s[1..], p);
      assert forall i :: 1 <= i < |s| ==> s[i] == s[1..][i - 1];
      r
    else s
  }

  /** `s` without its longest suffix of dashes. */
  function TrimEnd(s: string): (r: string)
    ensures |r| <= |s| && r == s[..|r|]
    ensures forall i :: |r| <= i < |s| ==> s[i] == '-'
    ensures r != [] ==> r[|r| - 1] != '-'
  {
    if s != [] && s[|s| - 1] == '-' then TrimEnd(s[..|s| - 1]) else s
  }

  function TrimDashes(s: string): string
  {
    TrimEnd(DropWhile(s, IsDash))
  }

  /**
   * Replaces every maximal run of characters that satisfy `inRun` by a single
   * dash: never longer than `s`, empty only when `s` is, no run character
   * left, and a leading character outside a run kept in place.
   */
  function Squash(s: string, inRun: char -> bool): (r: string)
    ensures |r| <= |s|
    ensures forall i :: 0 <= i < |r| ==> r[i] == '-' || !inRun(r[i])
    ensures r == [] <==> s == []
    ensures s != [] && !inRun(s[0]) ==> r[0] == s[0]
    decreases |s|
  {
    if s == [] then []
    else if inRun(s[0]) then
      var rest := Squash(DropWhile(s[1..], inRun), inRun);
      assert forall i :: 1 <= i <= |rest| ==> ("-" + rest)[i] == rest[i - 1];
      "-" + rest
    else
      var rest := Squash(s[1..], inRun);
      assert forall i :: 1 <= i <= |rest| ==> ([s[0]] + rest)[i] == rest[i - 1];
      [s[0]] + rest
  }

  /** The accent-stripping loop: keeps every character that is not a combining mark. */
  method RemoveDiacritics(text: string) returns (r: string)
    ensures r == StripMarks(text)
  {
    r := "";
    var i := 0;
    while i < |text|
      invariant 0 <= i <= |text|
      invariant r == StripMarks(text[..i])
    {
      assert text[..i + 1] == text[..i] + [text[i]];
      FilterConcat(text[..i], [text[i]], IsNotMark);
      if IsNotMark(text[i]) {
        r := r + [text[i]];
      }
      i := i + 1;
    }
    assert text[..i] == text;
  }

  /** The first three steps: lower-case, strip accents, one dash per run of white space. */
  function Normalize(input: string): string
  {
    Squash(StripMarks(ToLowerInvariant(input)), IsWhiteSpace)
  }

  /** The last three steps: keep a-z, 0-9 and dashes, collapse dash runs, trim dashes. */
  function Finish(dashed: string): string
  {
    TrimDashes(Squash(Filter(dashed, IsSlugChar), IsDash))
  }

  /**
   * The slug of `input`: empty for blank input, otherwise made only of
   * a-z, 0-9 and dashes, with no two dashes in a row and no dash at either end.
   */
  function ToSlug(input: string): (slug: string)
    ensures IsNullOrWhiteSpace(input) ==> slug == ""
    ensures forall i :: 0 <= i < |slug| ==> IsSlugChar(slug[i])
    ensures NoDoubleDash(slug)
    ensures NoEdgeDash(slug)
  {
    if IsNullOrWhiteSpace(input) then ""
    else
      var dashed := Normalize(input);
      FinishIsSlug(Filter(dashed, IsSlugChar));
      Finish(dashed)
  }

  lemma {:induction false} FilterConcat(a: string, b: string, keep: char -> bool)
    ensures Filter(a + b, keep) == Filter(a, keep) + Filter(b, keep)
  {
    if a == [] {
      assert a + b == b;
    } else {
      assert (a + b)[1..] == a[1..] + b;
      FilterConcat(a[1..], b, keep);
    }
  }

  lemma {:induction false} FilterEmptyIff(s: string, keep: char -> bool)
    ensures Filter(s, keep) == [] <==> forall i :: 0 <= i < |s| ==> !keep(s[i])
  {
    if s != [] {
      FilterEmptyIff(s[1..], keep);
      assert forall i :: 1 <= i < |s| ==> s[i] == s[1..][i - 1];
    }
  }

  /** Filtering by a weaker test first does not change what a stronger test keeps. */
  lemma {:induction false} FilterFilter(s: string, weak: char -> bool, strong: char -> bool)
    requires forall i :: 0 <= i < |s| ==> strong(s[i]) ==> weak(s[i])
    ensures Filter(Filter(s, weak), strong) == Filter(s, strong)
  {
    if s != [] {
      FilterFilter(s[1..], weak, strong);
      var head := if weak(s[0]) then [s[0]] else [];
      FilterConcat(head, Filter(s[1..], weak), strong);
    }
  }

  /** Without run characters nothing is replaced. */
  lemma {:induction false} SquashNoRun(s: string, inRun: char -> bool)
    requires forall i :: 0 <= i < |s| ==> !inRun(s[i])
    ensures Squash(s, inRun) == s
  {
    if s != [] {
      SquashNoRun(s[1..], inRun);
    }
  }

  /** A prefix without run characters passes through unchanged. */
  lemma {:induction false} SquashPrefix(a: string, t: string, inRun: char -> bool)
    requires forall i :: 0 <= i < |a| ==> !inRun(a[i])
    ensures Squash(a + t, inRun) == a + Squash(t, inRun)
  {
    if a != [] {
      assert (a + t)[0] == a[0] && (a + t)[1..] == a[1..] + t;
      calc {
        Squash(a + t, inRun);
        [a[0]] + Squash(a[1..] + t, inRun);
        { SquashPrefix(a[1..], t, inRun); }
        [a[0]] + (a[1..] + Squash(t, inRun));
        { assert [a[0]] + a[1..] == a; }
        a + Squash(t, inRun);
      }
    } else {
      assert a + t == t;
    }
  }

  /** Collapsing dashes leaves no two dashes in a row. */
  lemma {:induction false} SquashDashes(s: string)
    ensures NoDoubleDash(Squash(s, IsDash))
    decreases |s|
  {
    if s != [] {
      if IsDash(s[0]) {
        var rest := DropWhile(s[1..], IsDash);
        SquashDashes(rest);
      } else {
        SquashDashes(s[1..]);
      }
    }
  }

  lemma NoDoubleDashTail(s: string)
    requires s != [] && NoDoubleDash(s)
    ensures NoDoubleDash(s[1..])
  {
    assert forall i :: 0 <= i < |s| - 1 ==> s[1..][i] == s[i + 1];
  }

  /** A string with no two dashes in a row is its own dash-collapse. */
  lemma {:induction false} SquashDashesFixed(s: string)
    requires NoDoubleDash(s)
    ensures Squash(s, IsDash) == s
    decreases |s|
  {
    if s != [] {
      var t := s[1..];
      NoDoubleDashTail(s);
      SquashDashesFixed(t);
      if IsDash(s[0]) {
        assert t != [] ==> t[0] == s[1] && s[1] != '-';
        assert DropWhile(t, IsDash) == t;
      }
    }
  }

  lemma {:induction false} DropDashesAlphabet(s: string)
    requires forall i :: 0 <= i < |s| ==> IsSlugChar(s[i])
    ensures forall i :: 0 <= i < |DropWhile(s, IsDash)| ==> IsSlugChar(DropWhile(s, IsDash)[i])
  {
    if s != [] && IsDash(s[0]) {
      DropDashesAlphabet(s[1..]);
    }
  }

  /** Collapsing dashes introduces no character but the dash. */
  lemma {:induction false} SquashDashesAlphabet(s: string)
    requires forall i :: 0 <= i < |s| ==> IsSlugChar(s[i])
    ensures forall i :: 0 <= i < |Squash(s, IsDash)| ==> IsSlugChar(Squash(s, IsDash)[i])
    decreases |s|
  {
    if s != [] {
      if IsDash(s[0]) {
        var rest := DropWhile(s[1..], IsDash);
        DropDashesAlphabet(s[1..]);
        SquashDashesAlphabet(rest);
      } else {
        SquashDashesAlphabet(s[1..]);
      }
    }
  }

  /** Slug characters with no two dashes in a row: a slug up to its edges. */
  predicate SlugBody(s: string)
  {
    (forall i :: 0 <= i < |s| ==> IsSlugChar(s[i])) && NoDoubleDash(s)
  }

  lemma {:induction false} DropDashesBody(s: string)
    requires SlugBody(s)
    ensures SlugBody(DropWhile(s, IsDash))
  {
    if s != [] && IsDash(s[0]) {
      assert forall i :: 0 <= i < |s| - 1 ==> s[1..][i] == s[i + 1];
      DropDashesBody(s[1..]);
    }
  }

  lemma {:induction false} TrimEndBody(s: string)
    requires SlugBody(s)
    ensures SlugBody(TrimEnd(s))
    decreases |s|
  {
    if s != [] && s[|s| - 1] == '-' {
      assert forall i :: 0 <= i < |s| - 1 ==> s[..|s| - 1][i] == s[i];
      TrimEndBody(s[..|s| - 1]);
    }
  }

  /** Trimming the edge dashes of a string without double dashes yields a slug. */
  lemma TrimDashesIsSlug(single: string)
    requires SlugBody(single)
    ensures IsSlug(TrimDashes(single))
  {
    DropDashesBody(single);
    TrimEndBody(DropWhile(single, IsDash));
    var front := DropWhile(single, IsDash);
    var r := TrimEnd(front);
    assert r != [] ==> r[0] == front[0];
  }

  /** The last three steps of the pipeline always produce the slug grammar. */
  lemma FinishIsSlug(kept: string)
    requires forall i :: 0 <= i < |kept| ==> IsSlugChar(kept[i])
    ensures IsSlug(TrimDashes(Squash(kept, IsDash)))
  {
    SquashDashes(kept);
    SquashDashesAlphabet(kept);
    TrimDashesIsSlug(Squash(kept, IsDash));
  }

  /** On a string already in the slug grammar, the last three steps change nothing. */
  lemma FinishFixed(t: string)
    requires IsSlug(t)
    ensures Finish(t) == t
  {
    assert Filter(t, IsSlugChar) == t;
    SquashDashesFixed(t);
    if t != [] {
      assert DropWhile(t, IsDash) == t;
    }
  }

  lemma LowerFixed(t: string)
    requires forall i :: 0 <= i < |t| ==> !('A' <= t[i] <= 'Z')
    ensures ToLowerInvariant(t) == t
  {
  }

  /** A slug is its own slug. */
  lemma SlugFixpoint(t: string)
    requires IsSlug(t)
    ensures ToSlug(t) == t
  {
    if t != [] {
      assert !IsWhiteSpace(t[0]);
      LowerFixed(t);
      assert StripMarks(t) == t by {
        assert forall i :: 0 <= i < |t| ==> IsNotMark(t[i]);
      }
      SquashNoRun(t, IsWhiteSpace);
      assert Normalize(t) == t;
      FinishFixed(t);
    }
  }

  /** Making a slug twice gives the same slug. */
  lemma ToSlugIdempotent(s: string)
    ensures ToSlug(ToSlug(s)) == ToSlug(s)
  {
    SlugFixpoint(ToSlug(s));
  }

  lemma {:induction false} DropWhitePrefix(spaces: string, word: string)
    requires forall i :: 0 <= i < |spaces| ==> IsWhiteSpace(spaces[i])
    requires word != [] && !IsWhiteSpace(word[0])
    ensures DropWhile(spaces + word, IsWhiteSpace) == word
  {
    if spaces == [] {
      assert spaces + word == word;
    } else {
      assert (spaces + word)[0] == spaces[0] && (spaces + word)[1..] == spaces[1..] + word;
      DropWhitePrefix(spaces[1..], word);
    }
  }

  lemma LowerJoin(w1: string, spaces: string, w2: string)
    requires forall i :: 0 <= i < |spaces| ==> IsWhiteSpace(spaces[i])
    ensures ToLowerInvariant(w1 + spaces + w2) == ToLowerInvariant(w1) + spaces + ToLowerInvariant(w2)
  {
  }

  /** No slug word character is white space. */
  lemma WordNotWhiteSpace(w: string)
    requires forall i :: 0 <= i < |w| ==> IsWordChar(w[i])
    ensures forall i :: 0 <= i < |w| ==> !IsWhiteSpace(w[i])
  {
  }

  /** One run of white space between two words becomes one dash. */
  lemma SquashJoin(l1: string, spaces: string, l2: string)
    requires forall i :: 0 <= i < |l1| ==> IsWordChar(l1[i])
    requires forall i :: 0 <= i < |l2| ==> IsWordChar(l2[i])
    requires spaces != [] && l2 != []
    requires forall i :: 0 <= i < |spaces| ==> IsWhiteSpace(spaces[i])
    ensures Squash(l1 + spaces + l2, IsWhiteSpace) == l1 + "-" + l2
  {
    var rest := spaces + l2;
    assert l1 + spaces + l2 == l1 + rest;
    assert Squash(l1 + rest, IsWhiteSpace) == l1 + Squash(rest, IsWhiteSpace) by {
      WordNotWhiteSpace(l1);
      SquashPrefix(l1, rest, IsWhiteSpace);
    }
    assert Squash(rest, IsWhiteSpace) == "-" + l2 by {
      SquashRunThenWord(spaces, l2);
    }
    assert l1 + ("-" + l2) == l1 + "-" + l2;
  }

  lemma SquashRunThenWord(spaces: string, l2: string)
    requires forall i :: 0 <= i < |l2| ==> IsWordChar(l2[i])
    requires spaces != [] && l2 != []
    requires forall i :: 0 <= i < |spaces| ==> IsWhiteSpace(spaces[i])
    ensures Squash(spaces + l2, IsWhiteSpace) == "-" + l2
  {
    var s := spaces + l2;
    assert s[0] == spaces[0];
    assert s[1..] == spaces[1..] + l2;
    WordNotWhiteSpace(l2);
    DropWhitePrefix(spaces[1..], l2);
    SquashNoRun(l2, IsWhiteSpace);
    assert Squash(s, IsWhiteSpace) == "-" + Squash(DropWhile(s[1..], IsWhiteSpace), IsWhiteSpace);
  }

  lemma JoinIsSlug(l1: string, l2: string)
    requires l1 != [] && l2 != []
    requires forall i :: 0 <= i < |l1| ==> IsWordChar(l1[i])
    requires forall i :: 0 <= i < |l2| ==> IsWordChar(l2[i])
    ensures IsSlug(l1 + "-" + l2)
  {
    var t := l1 + "-" + l2;
    assert forall i :: 0 <= i < |t| ==> (i == |l1| || IsWordChar(t[i]));
  }

  /** White space between two ASCII words becomes exactly one dash, whatever its length. */
  /** The first three steps turn two ASCII words around white space into the lower-cased words around one dash. */
  lemma NormalizeJoin(w1: string, spaces: string, w2: string)
    requires w1 != [] && w2 != [] && spaces != []
    requires forall i :: 0 <= i < |w1| ==> IsAsciiLetterOrDigit(w1[i])
    requires forall i :: 0 <= i < |w2| ==> IsAsciiLetterOrDigit(w2[i])
    requires forall i :: 0 <= i < |spaces| ==> IsWhiteSpace(spaces[i])
    ensures Normalize(w1 + spaces + w2) == ToLowerInvariant(w1) + "-" + ToLowerInvariant(w2)
  {
    var l1, l2 := ToLowerInvariant(w1), ToLowerInvariant(w2);
    var lowered := l1 + spaces + l2;
    assert ToLowerInvariant(w1 + spaces + w2) == lowered by {
      LowerJoin(w1, spaces, w2);
    }
    assert StripMarks(lowered) == lowered by {
      assert forall i :: 0 <= i < |lowered| ==> IsNotMark(lowered[i]);
    }
    SquashJoin(l1, spaces, l2);
  }

  /** White space between two ASCII words becomes exactly one dash, whatever its length. */
  lemma WordsJoinedByDash(w1: string, spaces: string, w2: string)
    requires w1 != [] && w2 != [] && spaces != []
    requires forall i :: 0 <= i < |w1| ==> IsAsciiLetterOrDigit(w1[i])
    requires forall i :: 0 <= i < |w2| ==> IsAsciiLetterOrDigit(w2[i])
    requires forall i :: 0 <= i < |spaces| ==> IsWhiteSpace(spaces[i])
    ensures ToSlug(w1 + spaces + w2) == ToLowerInvariant(w1) + "-" + ToLowerInvariant(w2)
  {
    var s := w1 + spaces + w2;
    var t := ToLowerInvariant(w1) + "-" + ToLowerInvariant(w2);
    assert !IsNullOrWhiteSpace(s) by {
      assert s[0] == w1[0];
    }
    NormalizeJoin(w1, spaces, w2);
    assert Finish(t) == t by {
      JoinIsSlug(ToLowerInvariant(w1), ToLowerInvariant(w2));
      FinishFixed(t);
    }
  }

  /** Dropping a prefix of characters `keep` rejects does not change what `keep` accepts. */
  lemma {:induction false} FilterDropWhile(x: string, p: char -> bool, keep: char -> bool)
    requires forall i :: 0 <= i < |x| ==> !(p(x[i]) && keep(x[i]))
    ensures Filter(DropWhile(x, p), keep) == Filter(x, keep)
  {
    if x != [] && p(x[0]) {
      assert !keep(x[0]);
      FilterDropWhile(x[1..], p, keep);
    }
  }

  lemma {:induction false} DropWhileDisjoint(x: string, p: char -> bool, keep: char -> bool)
    requires forall i :: 0 <= i < |x| ==> !(p(x[i]) && keep(x[i]))
    ensures forall i :: 0 <= i < |DropWhile(x, p)| ==> !(p(DropWhile(x, p)[i]) && keep(DropWhile(x, p)[i]))
  {
    if x != [] && p(x[0]) {
      DropWhileDisjoint(x[1..], p, keep);
    }
  }

  lemma FilterTrimEnd(x: string, keep: char -> bool)
    requires !keep('-')
    ensures Filter(TrimEnd(x), keep) == Filter(x, keep)
  {
    var r := TrimEnd(x);
    assert x == r + x[|r|..];
    FilterConcat(r, x[|r|..], keep);
    FilterEmptyIff(x[|r|..], keep);
  }

  /** Collapsing runs into dashes does not change what `keep` accepts when it rejects dashes and run characters. */
  lemma {:induction false} FilterSquash(x: string, p: char -> bool, keep: char -> bool)
    requires !keep('-')
    requires forall i :: 0 <= i < |x| ==> !(p(x[i]) && keep(x[i]))
    ensures Filter(Squash(x, p), keep) == Filter(x, keep)
    decreases |x|
  {
    if x != [] {
      if p(x[0]) {
        var d := DropWhile(x[1..], p);
        DropWhileDisjoint(x[1..], p, keep);
        FilterSquash(d, p, keep);
        FilterConcat("-", Squash(d, p), keep);
        FilterDropWhile(x[1..], p, keep);
      } else {
        FilterSquash(x[1..], p, keep);
        FilterConcat([x[0]], Squash(x[1..], p), keep);
      }
    }
  }

  predicate IsAscii(s: string)
  {
    forall i :: 0 <= i < |s| ==> s[i] < '\U{80}'
  }

  /** The slug of an ASCII input holds exactly its lower-cased letters and digits, in order. */
  lemma ToSlugKeepsWords(s: string)
    requires IsAscii(s)
    ensures Filter(ToSlug(s), IsWordChar) == Filter(ToLowerInvariant(s), IsWordChar)
  {
    var lowered := ToLowerInvariant(s);
    if IsNullOrWhiteSpace(s) {
      FilterEmptyIff(lowered, IsWordChar);
    } else {
      var stripped := StripMarks(lowered);
      FilterFilter(lowered, IsNotMark, IsWordChar);
      var dashed := Squash(stripped, IsWhiteSpace);
      FilterSquash(stripped, IsWhiteSpace, IsWordChar);
      var kept := Filter(dashed, IsSlugChar);
      FilterFilter(dashed, IsSlugChar, IsWordChar);
      var single := Squash(kept, IsDash);
      FilterSquash(kept, IsDash, IsWordChar);
      FilterDropWhile(single, IsDash, IsWordChar);
      FilterTrimEnd(DropWhile(single, IsDash), IsWordChar);
    }
  }

  /** The slug of an ASCII input is empty exactly when the input holds no letter or digit. */
  lemma SlugEmptyIff(s: string)
    requires IsAscii(s)
    ensures ToSlug(s) == [] <==> forall i :: 0 <= i < |s| ==> !IsAsciiLetterOrDigit(s[i])
  {
    var slug, lowered := ToSlug(s), ToLowerInvariant(s);
    ToSlugKeepsWords(s);
    FilterEmptyIff(slug, IsWordChar);
    FilterEmptyIff(lowered, IsWordChar);
    assert forall i :: 0 <= i < |s| ==> (IsWordChar(lowered[i]) <==> IsAsciiLetterOrDigit(s[i]));
    assert slug != [] ==> IsWordChar(slug[0]);
  }
}
