/** The filename sanitizer of the playlist downloader: it turns an arbitrary
    playlist title into a string that is safe to use as one path segment
    (a working directory name and the stem of the archive name).

    The sanitizer is a chain of five steps, each modelled as its own function:
    RemoveForbidden, Strip, SpacesToUnderscores, KeepAllowed and Truncate. */
module Utils {
  import opened Seqs

  // ---------------------------------------------------------------------------
  // Character classes
  // ---------------------------------------------------------------------------

  /** The characters the first step deletes: `< > : " / \ | ? *`. */
  predicate IsForbidden(c: char) {
    || c == '<' || c == '>' || c == ':' || c == '"' || c == '/'
    || c == '\\' || c == '|' || c == '?' || c == '*'
  }

  /** A character the first step keeps. */
  predicate IsPathSafe(c: char) {
    !IsForbidden(c)
  }

  /** Whitespace as Python's `str.strip()` without arguments sees it: exactly
      the code points for which `str.isspace()` holds. */
  predicate IsWhitespace(c: char) {
    || '\U{9}' <= c <= '\U{D}'
    || '\U{1C}' <= c <= '\U{20}'
    || c == '\U{85}' || c == '\U{A0}' || c == '\U{1680}'
    || '\U{2000}' <= c <= '\U{200A}'
    || c == '\U{2028}' || c == '\U{2029}' || c == '\U{202F}' || c == '\U{205F}' || c == '\U{3000}'
  }

  /** The ASCII class `[A-Za-z0-9_-]` that the fourth step keeps. */
  predicate IsAllowed(c: char) {
    || 'A' <= c <= 'Z'
    || 'a' <= c <= 'z'
    || '0' <= c <= '9'
    || c == '_'
    || c == '-'
  }

  /** The class `[<>:"/\\|?*]` written as the list of its members. */
  const ForbiddenClass: string := "<>:\"/\\|?*"

  /** The code points for which Python's `str.isspace()` holds. */
  const IsspaceCodePoints: set<int> :=
    {0x9, 0xA, 0xB, 0xC, 0xD, 0x1C, 0x1D, 0x1E, 0x1F, 0x20, 0x85, 0xA0, 0x1680,
     0x2000, 0x2001, 0x2002, 0x2003, 0x2004, 0x2005, 0x2006, 0x2007, 0x2008,
     0x2009, 0x200A, 0x2028, 0x2029, 0x202F, 0x205F, 0x3000}

  /** The class `[A-Za-z0-9_\-]` written as the list of its members. */
  const UpperLetters: string := "ABCDEFGHIJKLMNOPQRSTUVWXYZ"
  const LowerLetters: string := "abcdefghijklmnopqrstuvwxyz"
  const Digits: string := "0123456789"
  const AllowedClass: string := UpperLetters + LowerLetters + Digits + "_-"

  /** IsForbidden holds exactly for the members of the class of step 1. */
  lemma ForbiddenIsClass(c: char)
    ensures IsForbidden(c) <==> c in ForbiddenClass
  {
  }

  /** IsWhitespace holds exactly for the 29 code points of `str.isspace()`. */
  lemma WhitespaceIsIsspace(c: char)
    ensures IsWhitespace(c) <==> c as int in IsspaceCodePoints
  {
  }

  /** IsAllowed holds exactly for the members of the class of step 4. */
  lemma AllowedIsClass(c: char)
    ensures IsAllowed(c) <==> c in AllowedClass
  {
    var u, l, d := UpperLetters, LowerLetters, Digits;
    assert c in AllowedClass <==> c in u || c in l || c in d || c == '_' || c == '-';
    LettersAndDigitsAreRuns();
    RunMembers(u, 'A', c);
    RunMembers(l, 'a', c);
    RunMembers(d, '0', c);
  }

  /** `s` lists consecutive code points, starting at `lo`. */
  predicate IsRun(s: string, lo: char) {
    forall i :: 0 <= i < |s| ==> s[i] as int == lo as int + i
  }

  /** The letter and digit lists of the allowed class are runs. */
  lemma LettersAndDigitsAreRuns()
    ensures IsRun(UpperLetters, 'A') && IsRun(LowerLetters, 'a') && IsRun(Digits, '0')
  {
  }

  /** A run holds exactly the code points of its range. */
  lemma RunMembers(s: string, lo: char, c: char)
    requires IsRun(s, lo)
    ensures c in s <==> lo as int <= c as int < lo as int + |s|
  {
    if lo as int <= c as int < lo as int + |s| {
      assert s[c as int - lo as int] == c;
    }
  }

  /** The allowed class is disjoint from the forbidden characters and from
      whitespace. */
  lemma AllowedIsPlain(c: char)
    requires IsAllowed(c)
    ensures !IsForbidden(c) && !IsWhitespace(c)
  {
  }

  // ---------------------------------------------------------------------------
  // The five steps
  // ---------------------------------------------------------------------------

  /** Step 1: delete every forbidden character. */
  function RemoveForbidden(s: string): (r: string)
    ensures |r| <= |s|
    ensures forall i :: 0 <= i < |r| ==> !IsForbidden(r[i])
  {
    Filter(s, IsPathSafe)
  }

  /** Leading half of `str.strip()`: drop the longest all-whitespace prefix. */
  function TrimStart(s: string): (r: string)
    ensures |r| <= |s| && r == s[|s| - |r|..]
    ensures forall i :: 0 <= i < |s| - |r| ==> IsWhitespace(s[i])
    ensures |r| == 0 || !IsWhitespace(r[0])
    decreases |s|
  {
    if |s| > 0 && IsWhitespace(s[0]) then TrimStart(s[1..]) else s
  }

  /** Trailing half of `str.strip()`: drop the longest all-whitespace suffix. */
  function TrimEnd(s: string): (r: string)
    ensures |r| <= |s| && r == s[..|r|]
    ensures forall i :: |r| <= i < |s| ==> IsWhitespace(s[i])
    ensures |r| == 0 || !IsWhitespace(r[|r| - 1])
    decreases |s|
  {
    if |s| > 0 && IsWhitespace(s[|s| - 1]) then TrimEnd(s[..|s| - 1]) else s
  }

  /** Step 2: `str.strip()`, whitespace removed from both ends. */
  function Strip(s: string): (r: string)
    ensures |r| <= |s|
    ensures |r| == 0 || (!IsWhitespace(r[0]) && !IsWhitespace(r[|r| - 1]))
  {
    TrimEnd(TrimStart(s))
  }

  /** Step 3: `str.replace(' ', '_')`, one underscore per space. */
  function SpacesToUnderscores(s: string): (r: string)
    ensures |r| == |s|
    ensures forall i :: 0 <= i < |s| ==> r[i] == (if s[i] == ' ' then '_' else s[i])
  {
    if |s| == 0 then []
    else [if s[0] == ' ' then '_' else s[0]] + SpacesToUnderscores(s[1..])
  }

  /** Step 4: delete every character outside `[A-Za-z0-9_-]`. */
  function KeepAllowed(s: string): (r: string)
    ensures |r| <= |s|
    ensures forall i :: 0 <= i < |r| ==> IsAllowed(r[i])
  {
    Filter(s, IsAllowed)
  }

  /** Step 5: the Python slice `s[:maxLength]`. A negative bound counts from
      the end of the string. */
  function Truncate(s: string, maxLength: int): (r: string)
    ensures r <= s
    ensures 0 <= maxLength ==> |r| == if maxLength <= |s| then maxLength else |s|
    ensures maxLength < 0 ==> |r| == if 0 <= |s| + maxLength then |s| + maxLength else 0
  {
    if 0 <= maxLength then
      if maxLength <= |s| then s[..maxLength] else s
    else
      if 0 <= |s| + maxLength then s[..|s| + maxLength] else []
  }

  /** Steps 1 to 4: the sanitized name before truncation. */
  function Clean(name: string): (r: string)
    ensures forall i :: 0 <= i < |r| ==> IsAllowed(r[i])
  {
    KeepAllowed(SpacesToUnderscores(Strip(RemoveForbidden(name))))
  }

  /** `sanitize_filename(name, max_length=100)`. */
  function SanitizeFilename(name: string, maxLength: int := 100): (r: string)
    ensures forall i :: 0 <= i < |r| ==> IsAllowed(r[i])
    ensures 0 <= maxLength ==> |r| <= maxLength
    ensures |name| == 0 ==> r == []
  {
    Truncate(Clean(name), maxLength)
  }

  // ---------------------------------------------------------------------------
  // Facts about the individual steps
  // ---------------------------------------------------------------------------

  /** Step 1 keeps exactly the characters that are not forbidden. */
  lemma RemoveForbiddenMembers(s: string)
    ensures forall c :: c in RemoveForbidden(s) <==> c in s && !IsForbidden(c)
  {
    FilterMembers(s, IsPathSafe);
  }

  /** Step 1 leaves text without forbidden characters unchanged. */
  lemma RemoveForbiddenFixes(s: string)
    requires forall i :: 0 <= i < |s| ==> !IsForbidden(s[i])
    ensures RemoveForbidden(s) == s
  {
    FilterKeepsAll(s, IsPathSafe);
  }

  /** Step 1 works character by character, so it distributes over
      concatenation. */
  lemma RemoveForbiddenConcat(a: string, b: string)
    ensures RemoveForbidden(a + b) == RemoveForbidden(a) + RemoveForbidden(b)
  {
    FilterConcat(a, b, IsPathSafe);
  }

  /** Step 1 deletes a run of forbidden characters entirely. */
  lemma RemoveForbiddenDrops(s: string)
    requires forall i :: 0 <= i < |s| ==> IsForbidden(s[i])
    ensures RemoveForbidden(s) == []
  {
    FilterDropsAll(s, IsPathSafe);
  }

  /** Step 4 keeps exactly the characters of `[A-Za-z0-9_-]`. */
  lemma KeepAllowedMembers(s: string)
    ensures forall c :: c in KeepAllowed(s) <==> c in s && IsAllowed(c)
  {
    FilterMembers(s, IsAllowed);
  }

  /** Step 4 leaves text of allowed characters unchanged. */
  lemma KeepAllowedFixes(s: string)
    requires forall i :: 0 <= i < |s| ==> IsAllowed(s[i])
    ensures KeepAllowed(s) == s
  {
    FilterKeepsAll(s, IsAllowed);
  }

  /** Step 4 works character by character, so it distributes over
      concatenation. */
  lemma KeepAllowedConcat(a: string, b: string)
    ensures KeepAllowed(a + b) == KeepAllowed(a) + KeepAllowed(b)
  {
    FilterConcat(a, b, IsAllowed);
  }

  /** Step 4 gives the empty string exactly when no character is allowed. */
  lemma KeepAllowedEmptyIff(s: string)
    ensures |KeepAllowed(s)| == 0 <==> forall i :: 0 <= i < |s| ==> !IsAllowed(s[i])
  {
    FilterDropsAll(s, IsAllowed);
  }

  /** Step 4 only deletes: its result keeps the order of its input. */
  lemma KeepAllowedIsSubseq(s: string)
    ensures IsSubseq(KeepAllowed(s), s)
  {
    FilterIsSubseq(s, IsAllowed);
  }

  /** Step 1 only deletes: its result keeps the order of its input. */
  lemma RemoveForbiddenIsSubseq(s: string)
    ensures IsSubseq(RemoveForbidden(s), s)
  {
    FilterIsSubseq(s, IsPathSafe);
  }

  /** Strip removes a whitespace-only prefix and a whitespace-only suffix and
      keeps the contiguous middle; `lo` is where the middle starts. */
  lemma StripBounds(s: string) returns (lo: nat)
    ensures lo + |Strip(s)| <= |s|
    ensures Strip(s) == s[lo..lo + |Strip(s)|]
    ensures forall i :: 0 <= i < lo ==> IsWhitespace(s[i])
    ensures forall i :: lo + |Strip(s)| <= i < |s| ==> IsWhitespace(s[i])
  {
    var t := TrimStart(s);
    lo := |s| - |t|;
    var r := Strip(s);
    assert t == s[lo..];
    assert r == t[..|r|];
    forall i | lo + |r| <= i < |s|
      ensures IsWhitespace(s[i])
    {
      assert s[i] == t[i - lo];
    }
  }

  /** A string that neither starts nor ends with whitespace is left alone by
      Strip. */
  lemma StripFixes(s: string)
    requires |s| == 0 || (!IsWhitespace(s[0]) && !IsWhitespace(s[|s| - 1]))
    ensures Strip(s) == s
  {
  }

  /** Whitespace in front is skipped by the leading trim. */
  lemma {:induction false} TrimStartSkipsPrefix(ws: string, y: string)
    requires forall i :: 0 <= i < |ws| ==> IsWhitespace(ws[i])
    ensures TrimStart(ws + y) == TrimStart(y)
  {
    if |ws| > 0 {
      assert (ws + y)[1..] == ws[1..] + y;
      TrimStartSkipsPrefix(ws[1..], y);
    } else {
      assert ws + y == y;
    }
  }

  /** Whitespace behind is skipped by the trailing trim. */
  lemma {:induction false} TrimEndSkipsSuffix(y: string, ws: string)
    requires forall i :: 0 <= i < |ws| ==> IsWhitespace(ws[i])
    ensures TrimEnd(y + ws) == TrimEnd(y)
  {
    if |ws| > 0 {
      assert (y + ws)[..|y + ws| - 1] == y + ws[..|ws| - 1];
      TrimEndSkipsSuffix(y, ws[..|ws| - 1]);
    } else {
      assert y + ws == y;
    }
  }

  /** The leading trim keeps trailing whitespace unless it consumed the whole
      text before it. */
  lemma {:induction false} TrimStartThroughSuffix(y: string, ws: string)
    requires forall i :: 0 <= i < |ws| ==> IsWhitespace(ws[i])
    ensures TrimStart(y + ws) == if |TrimStart(y)| == 0 then [] else TrimStart(y) + ws
  {
    if |y| == 0 {
      assert y + ws == ws + [];
      TrimStartSkipsPrefix(ws, []);
    } else if IsWhitespace(y[0]) {
      assert (y + ws)[1..] == y[1..] + ws;
      TrimStartThroughSuffix(y[1..], ws);
    }
  }

  /** Whitespace around a string does not change what Strip keeps. */
  lemma StripIgnoresPadding(lead: string, y: string, trail: string)
    requires forall i :: 0 <= i < |lead| ==> IsWhitespace(lead[i])
    requires forall i :: 0 <= i < |trail| ==> IsWhitespace(trail[i])
    ensures Strip(lead + y + trail) == Strip(y)
  {
    assert lead + y + trail == lead + (y + trail);
    TrimStartSkipsPrefix(lead, y + trail);
    TrimStartThroughSuffix(y, trail);
    if |TrimStart(y)| > 0 {
      TrimEndSkipsSuffix(TrimStart(y), trail);
    }
  }

  /** Step 3 maps characters one for one, so it preserves the subsequence
      order. */
  lemma {:induction false} SpacesToUnderscoresSubseq(a: string, b: string)
    requires IsSubseq(a, b)
    ensures IsSubseq(SpacesToUnderscores(a), SpacesToUnderscores(b))
    decreases |b|
  {
    if |a| > 0 {
      assert SpacesToUnderscores(b)[1..] == SpacesToUnderscores(b[1..]);
      assert SpacesToUnderscores(a)[1..] == SpacesToUnderscores(a[1..]);
      if IsSubseq(a, b[1..]) {
        SpacesToUnderscoresSubseq(a, b[1..]);
      } else {
        SpacesToUnderscoresSubseq(a[1..], b[1..]);
      }
    }
  }

  /** Step 2 keeps a contiguous part of its input. */
  lemma StripIsSubseq(s: string)
    ensures IsSubseq(Strip(s), s)
  {
    var lo := StripBounds(s);
    SliceIsSubseq(s, lo, lo + |Strip(s)|);
  }

  /** A string without spaces is left alone by step 3. */
  lemma SpacesToUnderscoresFixes(s: string)
    requires forall i :: 0 <= i < |s| ==> s[i] != ' '
    ensures SpacesToUnderscores(s) == s
  {
  }

  /** Step 3 works character by character, so it distributes over
      concatenation. */
  lemma SpacesToUnderscoresConcat(a: string, b: string)
    ensures SpacesToUnderscores(a + b) == SpacesToUnderscores(a) + SpacesToUnderscores(b)
  {
    var l, r := SpacesToUnderscores(a + b), SpacesToUnderscores(a) + SpacesToUnderscores(b);
    assert |l| == |r|;
    forall i | 0 <= i < |l|
      ensures l[i] == r[i]
    {
      if i < |a| {
        assert (a + b)[i] == a[i];
      } else {
        assert (a + b)[i] == b[i - |a|];
      }
    }
  }

  /** Steps 3 and 4 together: every space becomes one underscore that step 4
      keeps, so the underscores of the result are the spaces plus the
      underscores of the stripped text; runs of spaces are not collapsed. */
  lemma {:induction false} UnderscoresFromSpaces(t: string)
    ensures Count(KeepAllowed(SpacesToUnderscores(t)), '_') == Count(t, ' ') + Count(t, '_')
  {
    if |t| > 0 {
      var u := SpacesToUnderscores(t);
      var head: string := if IsAllowed(u[0]) then [u[0]] else [];
      assert u == [u[0]] + u[1..];
      assert u[1..] == SpacesToUnderscores(t[1..]);
      KeepAllowedConcat([u[0]], u[1..]);
      assert KeepAllowed([u[0]]) == head;
      UnderscoresFromSpaces(t[1..]);
      if |head| > 0 {
        assert (head + KeepAllowed(u[1..]))[1..] == KeepAllowed(u[1..]);
      } else {
        assert head + KeepAllowed(u[1..]) == KeepAllowed(u[1..]);
      }
    }
  }

  // ---------------------------------------------------------------------------
  // Properties of sanitize_filename
  // ---------------------------------------------------------------------------

  /** A string made only of allowed characters passes steps 1 to 4 unchanged. */
  lemma CleanFixesAllowed(s: string)
    requires forall i :: 0 <= i < |s| ==> IsAllowed(s[i])
    ensures Clean(s) == s
  {
    RemoveForbiddenFixes(s);
    StripFixes(s);
    SpacesToUnderscoresFixes(s);
    KeepAllowedFixes(s);
  }

  /** An input of allowed characters only is returned unchanged when it fits,
      and cut to its first `maxLength` characters when it does not. */
  lemma AllowedInputKept(s: string, maxLength: int)
    requires forall i :: 0 <= i < |s| ==> IsAllowed(s[i])
    requires 0 <= maxLength
    ensures SanitizeFilename(s, maxLength) == if |s| <= maxLength then s else s[..maxLength]
  {
    CleanFixesAllowed(s);
  }

  /** Sanitizing twice with the same non-negative bound is sanitizing once. */
  lemma Idempotent(name: string, maxLength: int)
    requires 0 <= maxLength
    ensures SanitizeFilename(SanitizeFilename(name, maxLength), maxLength) == SanitizeFilename(name, maxLength)
  {
    AllowedInputKept(SanitizeFilename(name, maxLength), maxLength);
  }

  /** The name is empty before truncation exactly when the stripped text holds
      neither an allowed character nor an interior space. */
  lemma CleanEmptyIff(name: string)
    ensures var t := Strip(RemoveForbidden(name));
      |Clean(name)| == 0 <==> forall i :: 0 <= i < |t| ==> !IsAllowed(t[i]) && t[i] != ' '
  {
    var t := Strip(RemoveForbidden(name));
    KeepAllowedEmptyIff(SpacesToUnderscores(t));
  }

  /** An input with no allowed character and no space sanitizes to the empty
      string; in particular one made only of forbidden characters does. */
  lemma NothingUsableGivesEmpty(name: string, maxLength: int)
    requires forall i :: 0 <= i < |name| ==> !IsAllowed(name[i]) && name[i] != ' '
    ensures SanitizeFilename(name, maxLength) == []
  {
    var r := RemoveForbidden(name);
    var t := Strip(r);
    var lo := StripBounds(r);
    RemoveForbiddenMembers(name);
    forall i | 0 <= i < |t|
      ensures !IsAllowed(t[i]) && t[i] != ' '
    {
      assert t[i] == r[lo + i];
      assert r[lo + i] in r;
    }
    CleanEmptyIff(name);
  }

  /** The exact condition for an empty result: nothing allowed and no space
      is left once forbidden characters are deleted and the ends stripped.
      It always gives the empty string, and for a positive bound nothing
      else does. */
  lemma EmptyResultIff(name: string, maxLength: int)
    ensures var t := Strip(RemoveForbidden(name));
      (forall i :: 0 <= i < |t| ==> !IsAllowed(t[i]) && t[i] != ' ') ==> SanitizeFilename(name, maxLength) == []
    ensures var t := Strip(RemoveForbidden(name));
      0 < maxLength ==> (SanitizeFilename(name, maxLength) == [] <==> forall i :: 0 <= i < |t| ==> !IsAllowed(t[i]) && t[i] != ' ')
  {
    CleanEmptyIff(name);
  }

  /** Steps 1 to 4 keep the order of the input: their result is a
      subsequence of the input with spaces turned into underscores. */
  lemma CleanIsSubseq(name: string)
    ensures IsSubseq(Clean(name), SpacesToUnderscores(name))
  {
    var r := RemoveForbidden(name);
    var t := Strip(r);
    var u := SpacesToUnderscores(t);
    assert IsSubseq(t, name) by {
      RemoveForbiddenIsSubseq(name);
      StripIsSubseq(r);
      SubseqTransitive(t, r, name);
    }
    assert IsSubseq(u, SpacesToUnderscores(name)) by {
      SpacesToUnderscoresSubseq(t, name);
    }
    KeepAllowedIsSubseq(u);
    SubseqTransitive(Clean(name), u, SpacesToUnderscores(name));
  }

  /** Order is preserved: the result is a prefix of the name before
      truncation, and a subsequence of the input with spaces turned into
      underscores. */
  lemma OrderPreserved(name: string, maxLength: int)
    ensures SanitizeFilename(name, maxLength) <= Clean(name)
    ensures IsSubseq(SanitizeFilename(name, maxLength), SpacesToUnderscores(name))
  {
    var c := Clean(name);
    var out := SanitizeFilename(name, maxLength);
    CleanIsSubseq(name);
    SliceIsSubseq(c, 0, |out|);
    assert c[0..|out|] == out;
    SubseqTransitive(out, c, SpacesToUnderscores(name));
  }

  /** Every space that survives the strip becomes exactly one underscore. */
  lemma InteriorSpacesBecomeUnderscores(name: string)
    ensures var t := Strip(RemoveForbidden(name));
      Count(Clean(name), '_') == Count(t, ' ') + Count(t, '_')
  {
    UnderscoresFromSpaces(Strip(RemoveForbidden(name)));
  }

  /** Whitespace around the input yields no underscore: the result is that of
      the input without it. */
  lemma SurroundingWhitespaceIgnored(lead: string, name: string, trail: string, maxLength: int)
    requires forall i :: 0 <= i < |lead| ==> IsWhitespace(lead[i])
    requires forall i :: 0 <= i < |trail| ==> IsWhitespace(trail[i])
    ensures SanitizeFilename(lead + name + trail, maxLength) == SanitizeFilename(name, maxLength)
  {
    RemoveForbiddenConcat(lead, name);
    RemoveForbiddenConcat(lead + name, trail);
    RemoveForbiddenFixes(lead);
    RemoveForbiddenFixes(trail);
    StripIgnoresPadding(lead, RemoveForbidden(name), trail);
  }

  /** Forbidden characters are deleted before anything else looks at the
      text: wherever they stand, the result is that of the text without them. */
  lemma ForbiddenCharactersIgnored(before: string, forbidden: string, after: string, maxLength: int)
    requires forall i :: 0 <= i < |forbidden| ==> IsForbidden(forbidden[i])
    ensures SanitizeFilename(before + forbidden + after, maxLength) == SanitizeFilename(before + after, maxLength)
  {
    RemoveForbiddenConcat(before, forbidden);
    RemoveForbiddenConcat(before + forbidden, after);
    RemoveForbiddenConcat(before, after);
    RemoveForbiddenDrops(forbidden);
    assert RemoveForbidden(before) + [] == RemoveForbidden(before);
  }

  /** A larger bound of the same sign gives a longer prefix of the same name. */
  lemma MonotoneInLength(name: string, m: int, n: int)
    requires 0 <= m <= n || m <= n < 0
    ensures SanitizeFilename(name, m) <= SanitizeFilename(name, n)
  {
  }

  /** A negative bound drops that many characters from the end of the
      cleaned name, as a Python slice does. */
  lemma NegativeBoundCutsFromEnd(s: string, maxLength: int)
    requires forall i :: 0 <= i < |s| ==> IsAllowed(s[i])
    requires maxLength < 0
    ensures SanitizeFilename(s, maxLength) == if 0 <= |s| + maxLength then s[..|s| + maxLength] else []
  {
    CleanFixesAllowed(s);
  }

  /** With a negative bound the sanitizer is not idempotent: every pass cuts
      the name again. */
  lemma NegativeBoundNotIdempotent(s: string)
    requires forall i :: 0 <= i < |s| ==> IsAllowed(s[i])
    requires 2 <= |s|
    ensures SanitizeFilename(SanitizeFilename(s, -1), -1) != SanitizeFilename(s, -1)
  {
    var once := SanitizeFilename(s, -1);
    NegativeBoundCutsFromEnd(s, -1);
    assert forall i :: 0 <= i < |once| ==> IsAllowed(once[i]);
    NegativeBoundCutsFromEnd(once, -1);
  }

  /** Text made of allowed characters and spaces, with no space at either
      end, only has each space turned into one underscore. */
  lemma SpacedWordsKept(s: string)
    requires forall i :: 0 <= i < |s| ==> IsAllowed(s[i]) || s[i] == ' '
    requires |s| == 0 || (s[0] != ' ' && s[|s| - 1] != ' ')
    ensures Clean(s) == SpacesToUnderscores(s)
  {
    SpacedWordsPassSteps1And2(s);
    SpacedWordsPassStep4(s);
  }

  /** Steps 1 and 2 leave spaced words unchanged. */
  lemma SpacedWordsPassSteps1And2(s: string)
    requires forall i :: 0 <= i < |s| ==> IsAllowed(s[i]) || s[i] == ' '
    requires |s| == 0 || (s[0] != ' ' && s[|s| - 1] != ' ')
    ensures Strip(RemoveForbidden(s)) == s
  {
    if |s| > 0 {
      AllowedIsPlain(s[0]);
      AllowedIsPlain(s[|s| - 1]);
    }
    StripFixes(s);
    RemoveForbiddenFixes(s);
  }

  /** Step 4 keeps every character of spaced words after step 3. */
  lemma SpacedWordsPassStep4(s: string)
    requires forall i :: 0 <= i < |s| ==> IsAllowed(s[i]) || s[i] == ' '
    ensures KeepAllowed(SpacesToUnderscores(s)) == SpacesToUnderscores(s)
  {
    var u := SpacesToUnderscores(s);
    assert forall i :: 0 <= i < |u| ==> IsAllowed(u[i]);
    KeepAllowedFixes(u);
  }

  /** A word followed by a space and a forbidden character sanitizes to the
      word: the forbidden character goes first, so the exposed space is
      stripped rather than turned into `_` (`"a <"` gives `"a"`). */
  lemma ForbiddenTailLeavesNoUnderscore(word: string, f: char, maxLength: int)
    requires forall i :: 0 <= i < |word| ==> IsAllowed(word[i])
    requires IsForbidden(f)
    ensures SanitizeFilename(word + [' ', f], maxLength) == SanitizeFilename(word, maxLength)
  {
    var t := word + [' '];
    assert RemoveForbidden(word + [' ', f]) == t by {
      assert word + [' ', f] == t + [f];
      RemoveForbiddenConcat(t, [f]);
      RemoveForbiddenDrops([f]);
      forall i | 0 <= i < |t|
        ensures !IsForbidden(t[i])
      {
        if i < |word| {
          AllowedIsPlain(word[i]);
        }
      }
      RemoveForbiddenFixes(t);
    }
    assert Strip(t) == Strip(word) by {
      assert t == [] + word + [' '];
      StripIgnoresPadding([], word, [' ']);
    }
    assert RemoveForbidden(word) == word by {
      forall i | 0 <= i < |word|
        ensures !IsForbidden(word[i])
      {
        AllowedIsPlain(word[i]);
      }
      RemoveForbiddenFixes(word);
    }
  }

  /** A run of `k` spaces between two words becomes a run of exactly `k`
      underscores (`"a  b"` gives `"a__b"`). */
  lemma SpaceRunKept(a: string, k: nat, b: string, maxLength: int)
    requires forall i :: 0 <= i < |a| ==> IsAllowed(a[i])
    requires forall i :: 0 <= i < |b| ==> IsAllowed(b[i])
    requires 0 < |a| && 0 < |b|
    ensures SanitizeFilename(a + seq(k, _ => ' ') + b, maxLength)
         == Truncate(a + seq(k, _ => '_') + b, maxLength)
  {
    SpaceRunIsSpacedWords(a, k, b);
    SpacedWordsKept(a + seq(k, _ => ' ') + b);
    SpaceRunUnderscored(a, k, b);
  }

  /** Two words joined by a run of spaces are spaced words. */
  lemma SpaceRunIsSpacedWords(a: string, k: nat, b: string)
    requires forall i :: 0 <= i < |a| ==> IsAllowed(a[i])
    requires forall i :: 0 <= i < |b| ==> IsAllowed(b[i])
    requires 0 < |a| && 0 < |b|
    ensures var s := a + seq(k, _ => ' ') + b;
      && (forall i :: 0 <= i < |s| ==> IsAllowed(s[i]) || s[i] == ' ')
      && s[0] != ' ' && s[|s| - 1] != ' '
  {
    var s := a + seq(k, _ => ' ') + b;
    forall i | 0 <= i < |s|
      ensures IsAllowed(s[i]) || s[i] == ' '
    {
      if i < |a| {
        assert s[i] == a[i];
      } else if i >= |a| + k {
        assert s[i] == b[i - |a| - k];
      }
    }
    assert s[0] == a[0] && s[|s| - 1] == b[|b| - 1];
  }

  /** Step 3 turns the run of spaces, and only it, into underscores. */
  lemma SpaceRunUnderscored(a: string, k: nat, b: string)
    requires forall i :: 0 <= i < |a| ==> a[i] != ' '
    requires forall i :: 0 <= i < |b| ==> b[i] != ' '
    ensures SpacesToUnderscores(a + seq(k, _ => ' ') + b) == a + seq(k, _ => '_') + b
  {
    var spaces: string := seq(k, _ => ' ');
    SpacesToUnderscoresConcat(a + spaces, b);
    SpacesToUnderscoresConcat(a, spaces);
    SpacesToUnderscoresFixes(a);
    SpacesToUnderscoresFixes(b);
    assert SpacesToUnderscores(spaces) == seq(k, _ => '_');
  }
}
