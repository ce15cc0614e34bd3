/** The per-text work of the string functions of a Column: length, concat,
    upper, lower, initCap, substring, trim, replace, left and right applied
    to one non-null cell's text. */
module Strings {
  import opened Results

  // ---------------------------------------------------------------------
  // Letter case

  predicate IsLower(c: char) { 'a' <= c <= 'z' }
  predicate IsUpper(c: char) { 'A' <= c <= 'Z' }
  predicate IsDigitChar(c: char) { '0' <= c <= '9' }

  /** initCap's delimiter: anything but an ASCII letter or digit. */
  predicate IsDelimiter(c: char)
  {
    !IsUpper(c) && !IsLower(c) && !IsDigitChar(c)
  }

  function ToUpper(c: char): (u: char)
    ensures IsLower(c) ==> IsUpper(u)
    ensures !IsLower(c) ==> u == c
  {
    if IsLower(c) then (c as int - 32) as char else c
  }

  function ToLower(c: char): (l: char)
    ensures IsUpper(c) ==> IsLower(l)
    ensures !IsUpper(c) ==> l == c
  {
    if IsUpper(c) then (c as int + 32) as char else c
  }

  /** The text upper returns: each ASCII lower-case letter upper-cased. */
  function UpperOf(text: string): (r: string)
    ensures |r| == |text| && forall i :: 0 <= i < |r| ==> r[i] == ToUpper(text[i])
  {
    seq(|text|, i requires 0 <= i < |text| => ToUpper(text[i]))
  }

  /** The text lower returns: each ASCII upper-case letter lower-cased. */
  function LowerOf(text: string): (r: string)
    ensures |r| == |text| && forall i :: 0 <= i < |r| ==> r[i] == ToLower(text[i])
  {
    seq(|text|, i requires 0 <= i < |text| => ToLower(text[i]))
  }

  /** upper: every character is rewritten in place. */
  method Upper(text: string) returns (r: string)
    ensures r == UpperOf(text)
  {
    r := text;
    var i := 0;
    while i < |r|
      invariant 0 <= i <= |r| == |text|
      invariant forall k :: 0 <= k < i ==> r[k] == ToUpper(text[k])
      invariant forall k :: i <= k < |r| ==> r[k] == text[k]
    {
      r := r[i := ToUpper(r[i])];
      i := i + 1;
    }
  }

  /** lower: every character is rewritten in place. */
  method Lower(text: string) returns (r: string)
    ensures r == LowerOf(text)
  {
    r := text;
    var i := 0;
    while i < |r|
      invariant 0 <= i <= |r| == |text|
      invariant forall k :: 0 <= k < i ==> r[k] == ToLower(text[k])
      invariant forall k :: i <= k < |r| ==> r[k] == text[k]
    {
      r := r[i := ToLower(r[i])];
      i := i + 1;
    }
  }

  /** After upper no lower-case letter is left, upper changes nothing more,
      and lower then gives what lower gives on the original text; the same
      holds with the roles swapped. */
  lemma UpperLowerLaws(text: string)
    ensures forall i :: 0 <= i < |text| ==> !IsLower(UpperOf(text)[i]) && !IsUpper(LowerOf(text)[i])
    ensures UpperOf(UpperOf(text)) == UpperOf(text)
    ensures LowerOf(UpperOf(text)) == LowerOf(text)
    ensures LowerOf(LowerOf(text)) == LowerOf(text)
    ensures UpperOf(LowerOf(text)) == UpperOf(text)
  {
    assert UpperOf(UpperOf(text)) == UpperOf(text);
    assert LowerOf(UpperOf(text)) == LowerOf(text);
    assert LowerOf(LowerOf(text)) == LowerOf(text);
    assert UpperOf(LowerOf(text)) == UpperOf(text);
  }

  /** The source's tests of upper and lower. */
  lemma UpperLowerExamples()
    ensures UpperOf("HelLo WorLd") == "HELLO WORLD"
    ensures LowerOf("HelLo WorLd") == "hello world"
  {
  }

  /** Whether the character at i starts a word: initCap's pastWasDelimiter
      flag on reaching i. */
  predicate WordStart(s: string, i: int)
    requires 0 <= i <= |s|
  {
    i == 0 || IsDelimiter(s[i - 1])
  }

  /** The character initCap leaves at i: delimiters and digits are kept, a
      letter is upper-cased at the start of a word and lower-cased inside. */
  function InitCapChar(s: string, i: int): char
    requires 0 <= i < |s|
  {
    if IsDelimiter(s[i]) || IsDigitChar(s[i]) then s[i]
    else if WordStart(s, i) then ToUpper(s[i])
    else ToLower(s[i])
  }

  /** The text initCap returns. */
  function InitCapOf(text: string): (r: string)
    ensures |r| == |text| && forall i :: 0 <= i < |r| ==> r[i] == InitCapChar(text, i)
  {
    seq(|text|, i requires 0 <= i < |text| => InitCapChar(text, i))
  }

  /** initCap: one pass that tracks whether the previous character was a
      delimiter and rewrites each letter. */
  method InitCap(text: string) returns (r: string)
    ensures r == InitCapOf(text)
  {
    r := text;
    if |text| == 0 {
      return;
    }
    var pastWasDelimiter := true;
    var i := 0;
    while i < |r|
      invariant 0 <= i <= |r| == |text|
      invariant pastWasDelimiter == WordStart(text, i)
      invariant forall k :: 0 <= k < i ==> r[k] == InitCapChar(text, k)
      invariant forall k :: i <= k < |r| ==> r[k] == text[k]
    {
      var c := r[i];
      if IsDelimiter(c) {
        pastWasDelimiter := true;
      } else if IsDigitChar(c) {
        pastWasDelimiter := false;
      } else {
        r := r[i := if pastWasDelimiter then ToUpper(c) else ToLower(c)];
        pastWasDelimiter := false;
      }
      i := i + 1;
    }
  }

  /** initCap keeps every character's class (letter, digit, delimiter), so a
      second initCap changes nothing; a letter comes out upper-case exactly
      at the start of a word. */
  lemma InitCapIdempotent(text: string)
    ensures InitCapOf(InitCapOf(text)) == InitCapOf(text)
    ensures forall i :: 0 <= i < |text| && (IsUpper(text[i]) || IsLower(text[i])) ==>
      (IsUpper(InitCapOf(text)[i]) <==> WordStart(text, i))
  {
    var once := InitCapOf(text);
    forall i | 0 <= i < |once|
      ensures IsDelimiter(once[i]) <==> IsDelimiter(text[i])
      ensures IsDigitChar(once[i]) <==> IsDigitChar(text[i])
    {
    }
    forall i | 0 <= i < |once|
      ensures InitCapOf(once)[i] == once[i]
    {
      assert WordStart(once, i) <==> WordStart(text, i);
    }
  }

  /** The source's tests of initCap. */
  lemma InitCapExamples()
    ensures InitCapOf("HelLo WorLd") == "Hello World"
    ensures InitCapOf("all lower") == "All Lower"
    ensures InitCapOf("ALL UPPER") == "All Upper"
  {
  }

  // ---------------------------------------------------------------------
  // Slicing

  /** length of a text. */
  function Length(text: string): (n: int)
    ensures n == |text|
  {
    |text|
  }

  /** substring(start, length), 1-indexed: a start below 1 counts as 1, a
      start past the end gives the empty text, and the count is cut at the
      end.  A negative length makes the count negative, which the source
      hands to substr as an unsigned size, so the rest of the text is kept. */
  function Substring(text: string, startPos: int, length: int): (r: string)
    ensures |r| <= |text|
    ensures length >= 0 ==> |r| <= length
    ensures startPos <= 1 && (length < 0 || length >= |text|) ==> r == text
  {
    var start := if startPos - 1 < 0 then 0 else startPos - 1;
    if |text| < start then ""
    else if length < 0 then text[start..]
    else text[start..if start + length < |text| then start + length else |text|]
  }

  /** What substring returns: a run of consecutive characters that starts at
      the clamped 0-based position and is at most `length` long. */
  lemma SubstringIsSlice(text: string, startPos: int, length: int)
    ensures var start := if startPos - 1 < 0 then 0 else startPos - 1;
      if start > |text| then Substring(text, startPos, length) == ""
      else exists stop :: SliceTo(text, startPos, length, start, stop)
  {
    var start := if startPos - 1 < 0 then 0 else startPos - 1;
    if start <= |text| {
      var stop := if length < 0 then |text| else if start + length < |text| then start + length else |text|;
      assert SliceTo(text, startPos, length, start, stop);
    }
  }

  predicate SliceTo(text: string, startPos: int, length: int, start: int, stop: int)
  {
    0 <= start <= stop <= |text| && Substring(text, startPos, length) == text[start..stop]
    && (length >= 0 ==> stop - start == (if length < |text| - start then length else |text| - start))
    && (length < 0 ==> stop == |text|)
  }

  /** The source's substring examples. */
  lemma SubstringExamples()
    ensures Substring("abcdefg", 2, 3) == "bcd"
    ensures Substring("abcdefg", 4, 99) == "defg"
    ensures Substring("abcdefg", 0, 3) == "abc"
    ensures Substring("abcdefg", 9, 2) == ""
  {
  }

  /** left(cutoff): the first `cutoff` characters, or the whole text when it
      is shorter.  A negative cutoff is compared as an unsigned size, so it
      too keeps the whole text. */
  function Left(text: string, cutoff: int): (r: string)
    ensures |r| <= |text| && r == text[..|r|]
    ensures |r| == (if 0 <= cutoff <= |text| then cutoff else |text|)
  {
    if cutoff < 0 || cutoff > |text| then text else text[..cutoff]
  }

  /** left is substring from the first character. */
  lemma LeftIsSubstring(text: string, cutoff: int)
    requires cutoff >= 0
    ensures Left(text, cutoff) == Substring(text, 1, cutoff)
  {
  }

  /** right(k): as written, the text with its last k characters dropped;
      a k that is negative or exceeds the size gives the empty text. */
  function Right(text: string, k: int): (r: string)
    ensures |r| <= |text| && r == text[..|r|]
    ensures |r| == (if 0 <= k <= |text| then |text| - k else 0)
  {
    if k < 0 || k > |text| then "" else text[..|text| - k]
  }

  /** right(k) and the last k characters make the text again. */
  lemma RightDropsSuffix(text: string, k: int)
    requires 0 <= k <= |text|
    ensures Right(text, k) + text[|text| - k..] == text
    ensures |Right(text, k)| == |text| - k
    ensures Right(text, k) == Left(text, |text| - k)
  {
  }

  /** concat: the text followed by the suffix. */
  function Concat(text: string, suffix: string): (r: string)
    ensures |r| == |text| + |suffix| && r[..|text|] == text && r[|text|..] == suffix
  {
    text + suffix
  }

  // ---------------------------------------------------------------------
  // Trim

  datatype TrimModes = Leading | Trailing | Both

  /** trim's default character to remove. */
  const DefaultTrimChar: char := ' '

  /** The number of copies of c the text starts with. */
  function LeadingRun(s: string, c: char): (k: nat)
    ensures k <= |s| && (forall j :: 0 <= j < k ==> s[j] == c) && (k < |s| ==> s[k] != c)
  {
    if s == [] || s[0] != c then 0 else 1 + LeadingRun(s[1..], c)
  }

  /** The number of copies of c the text ends with. */
  function TrailingRun(s: string, c: char): (k: nat)
    ensures k <= |s| && (forall j :: |s| - k <= j < |s| ==> s[j] == c) && (k < |s| ==> s[|s| - k - 1] != c)
  {
    if s == [] || s[|s| - 1] != c then 0 else 1 + TrailingRun(s[..|s| - 1], c)
  }

  /** The LEADING loop: advance past copies of c. */
  method TrimLeading(text: string, toRemove: char) returns (r: string)
    ensures r == text[LeadingRun(text, toRemove)..]
  {
    var cut := 0;
    while cut != |text| && text[cut] == toRemove
      invariant 0 <= cut <= LeadingRun(text, toRemove)
    {
      cut := cut + 1;
    }
    r := text[cut..];
  }

  /** The TRAILING loop: walk back from the end past copies of c. */
  method TrimTrailing(text: string, toRemove: char) returns (r: string)
    ensures r == text[..|text| - TrailingRun(text, toRemove)]
  {
    var cut := 0;
    while cut != |text| && text[|text| - 1 - cut] == toRemove
      invariant 0 <= cut <= TrailingRun(text, toRemove)
    {
      cut := cut + 1;
    }
    r := text[..|text| - cut];
  }

  /** trim in one of its three modes; BOTH trims the front, then the back of
      what is left. */
  method Trim(text: string, mode: TrimModes, toRemove: char) returns (r: string)
    ensures r == Trimmed(text, mode, toRemove)
  {
    match mode
    case Leading =>
      r := TrimLeading(text, toRemove);
    case Trailing =>
      r := TrimTrailing(text, toRemove);
    case Both =>
      var front := TrimLeading(text, toRemove);
      r := TrimTrailing(front, toRemove);
  }

  /** The text trim returns. */
  function Trimmed(text: string, mode: TrimModes, c: char): string
  {
    var front := text[LeadingRun(text, c)..];
    match mode
    case Leading => front
    case Trailing => text[..|text| - TrailingRun(text, c)]
    case Both => front[..|front| - TrailingRun(front, c)]
  }

  /** trim removes only copies of the character, at the trimmed ends: the
      result is one run of the text, everything cut is that character, and
      it no longer starts (LEADING, BOTH) or ends (TRAILING, BOTH) with it. */
  lemma TrimmedIsSlice(text: string, mode: TrimModes, c: char)
    ensures exists lo, hi :: TrimSlice(text, mode, c, lo, hi)
    ensures var r := Trimmed(text, mode, c);
      (mode != Trailing && r != [] ==> r[0] != c) && (mode != Leading && r != [] ==> r[|r| - 1] != c)
  {
    var lo := LeadingRun(text, c);
    match mode
    case Leading =>
      LeadingIsSlice(text, c);
    case Trailing =>
      TrailingIsSlice(text, c);
    case Both =>
      BothIsSlice(text, c);
      assert TrimSlice(text, mode, c, lo, |text| - TrailingRun(text[lo..], c));
  }

  lemma LeadingIsSlice(text: string, c: char)
    ensures TrimSlice(text, Leading, c, LeadingRun(text, c), |text|)
    ensures var r := Trimmed(text, Leading, c); r != [] ==> r[0] != c
  {
  }

  lemma TrailingIsSlice(text: string, c: char)
    ensures TrimSlice(text, Trailing, c, 0, |text| - TrailingRun(text, c))
    ensures var r := Trimmed(text, Trailing, c); r != [] ==> r[|r| - 1] != c
  {
  }

  /** trim keeps text[lo..hi), cutting only copies of c, at the ends the
      mode names. */
  predicate TrimSlice(text: string, mode: TrimModes, c: char, lo: int, hi: int)
  {
    Cut(text, c, lo, hi) && Trimmed(text, mode, c) == text[lo..hi]
    && (mode == Leading ==> hi == |text|) && (mode == Trailing ==> lo == 0)
  }

  /** Only copies of c lie outside [lo, hi). */
  predicate Cut(text: string, c: char, lo: int, hi: int)
  {
    0 <= lo <= hi <= |text| && (forall j :: 0 <= j < lo ==> text[j] == c) && (forall j :: hi <= j < |text| ==> text[j] == c)
  }

  lemma BothIsSlice(text: string, c: char)
    ensures var lo := LeadingRun(text, c);
      var hi := |text| - TrailingRun(text[lo..], c);
      Cut(text, c, lo, hi) && Trimmed(text, Both, c) == text[lo..hi]
    ensures var r := Trimmed(text, Both, c); r != [] ==> r[0] != c && r[|r| - 1] != c
  {
    var lo := LeadingRun(text, c);
    var front := text[lo..];
    var t := TrailingRun(front, c);
    var hi := |text| - t;
    var r := front[..|front| - t];
    assert r == text[lo..hi];
    forall j | hi <= j < |text|
      ensures text[j] == c
    {
      assert text[j] == front[j - lo];
    }
    if r != [] {
      assert r[0] == text[lo];
      assert r[|r| - 1] == front[|front| - t - 1];
    }
  }

  /** Trimming twice is trimming once. */
  lemma TrimIdempotent(text: string, mode: TrimModes, c: char)
    ensures Trimmed(Trimmed(text, mode, c), mode, c) == Trimmed(text, mode, c)
  {
    TrimmedIsSlice(text, mode, c);
    var r := Trimmed(text, mode, c);
    if r != [] {
      if mode != Trailing {
        assert LeadingRun(r, c) == 0;
      }
      if mode != Leading {
        assert TrailingRun(r, c) == 0;
      }
    }
    assert r[0..] == r;
    assert r[..|r|] == r;
  }

  /** The source's trim tests, with the default character and with 'x'. */
  lemma TrimExamples()
    ensures Trimmed("  hello  ", Leading, DefaultTrimChar) == "hello  "
    ensures Trimmed("  hello  ", Trailing, DefaultTrimChar) == "  hello"
    ensures Trimmed("  hello  ", Both, DefaultTrimChar) == "hello"
    ensures Trimmed("xxxyyyxxx", Both, 'x') == "yyy"
  {
    SpacedHelloRuns();
    assert "  hello  "[2..] == "hello  ";
    assert "  hello  "[..7] == "  hello";
    assert "hello  "[..5] == "hello";
    XRuns();
    assert "yyyxxx"[..3] == "yyy";
  }

  lemma SpacedHelloRuns()
    ensures LeadingRun("  hello  ", ' ') == 2 && TrailingRun("  hello  ", ' ') == 2
    ensures TrailingRun("hello  ", ' ') == 2
  {
    assert "  hello  "[1..] == " hello  " && " hello  "[1..] == "hello  ";
    assert "  hello  "[..8] == "  hello " && "  hello "[..7] == "  hello";
    assert "hello  "[..6] == "hello " && "hello "[..5] == "hello";
  }

  lemma XRuns()
    ensures LeadingRun("xxxyyyxxx", 'x') == 3 && "xxxyyyxxx"[3..] == "yyyxxx"
    ensures TrailingRun("yyyxxx", 'x') == 3
  {
    var s := "xxxyyyxxx";
    var k := LeadingRun(s, 'x');
    assert s[0] == s[1] == s[2] == 'x' != s[3];
    assert k == 3;
    var t := "yyyxxx";
    var m := TrailingRun(t, 'x');
    assert t[5] == t[4] == t[3] == 'x' != t[2];
    assert m == 3;
  }

  // ---------------------------------------------------------------------
  // Replace

  predicate OccursAt(text: string, pattern: string, i: int)
  {
    0 <= i && i + |pattern| <= |text| && text[i..i + |pattern|] == pattern
  }

  /** std::string::find from position `from`: the first position at or after
      it where the pattern occurs (the empty pattern occurs at `from`). */
  function FindFrom(text: string, pattern: string, from: nat): (r: Option<nat>)
    ensures r.Some? ==> from <= r.value && OccursAt(text, pattern, r.value)
    ensures r.Some? ==> forall j :: from <= j < r.value ==> !OccursAt(text, pattern, j)
    ensures r.None? ==> forall j :: from <= j ==> !OccursAt(text, pattern, j)
    decreases |text| - from
  {
    if from + |pattern| > |text| then None
    else if text[from..from + |pattern|] == pattern then Some(from)
    else FindFrom(text, pattern, from + 1)
  }

  /** One step of replace: the first occurrence replaced. */
  function ReplaceFirst(text: string, pattern: string, newVal: string, at: nat): (r: string)
    requires OccursAt(text, pattern, at)
    ensures |r| == |text| - |pattern| + |newVal|
  {
    text[..at] + newVal + text[at + |pattern|..]
  }

  /** The text replace settles on, when it settles within `fuel` rounds: each
      round replaces the first occurrence and searches again from the start,
      so a replacement that recreates the pattern is replaced again. */
  function Replaced(text: string, pattern: string, newVal: string, fuel: nat): (r: Result<string>)
    ensures r.Success? ==> FindFrom(r.value, pattern, 0).None?
    ensures r.Failure? ==> r.error == FuelExhausted
    decreases fuel
  {
    match FindFrom(text, pattern, 0)
    case None => Success(text)
    case Some(at) =>
      if fuel == 0 then Failure(FuelExhausted)
      else Replaced(ReplaceFirst(text, pattern, newVal, at), pattern, newVal, fuel - 1)
  }

  /** replace: find, replace, find again from the start, until the pattern no
      longer occurs.  The source's loop need not stop (an empty pattern, or a
      replacement containing the pattern); the model gives it `fuel` rounds. */
  method Replace(text: string, pattern: string, newVal: string, fuel: nat) returns (r: Result<string>)
    ensures r == Replaced(text, pattern, newVal, fuel)
  {
    var current := text;
    var left := fuel;
    var start := FindFrom(current, pattern, 0);
    while start.Some?
      invariant Replaced(current, pattern, newVal, left) == Replaced(text, pattern, newVal, fuel)
      invariant start == FindFrom(current, pattern, 0)
      decreases left
    {
      if left == 0 {
        return Failure(FuelExhausted);
      }
      current := ReplaceFirst(current, pattern, newVal, start.value);
      left := left - 1;
      start := FindFrom(current, pattern, 0);
    }
    r := Success(current);
  }

  /** A non-empty pattern replaced by something shorter needs at most one
      round per character: replace then always settles, on a text free of
      the pattern. */
  lemma {:induction false} ShrinkingReplaceSettles(text: string, pattern: string, newVal: string, fuel: nat)
    requires |newVal| < |pattern|
    requires fuel >= |text|
    ensures Replaced(text, pattern, newVal, fuel).Success?
    decreases |text|
  {
    match FindFrom(text, pattern, 0)
    case None =>
    case Some(at) =>
      var next := ReplaceFirst(text, pattern, newVal, at);
      ShrinkingReplaceSettles(next, pattern, newVal, fuel - 1);
  }

  /** An empty pattern is found at once, and replacing it with the empty text
      changes nothing: replace never settles. */
  lemma EmptyPatternNeverSettles(text: string, fuel: nat)
    ensures Replaced(text, "", "", fuel) == Failure(FuelExhausted)
    decreases fuel
  {
    assert text[0..0] == "";
    assert ReplaceFirst(text, "", "", 0) == text;
    if fuel > 0 {
      EmptyPatternNeverSettles(text, fuel - 1);
    }
  }

  /** A replacement that does not settle at once can remove more than the
      listed occurrences: "aab" with "ab" replaced by "b" becomes "b". */
  lemma ReplaceCascades()
    ensures Replaced("aab", "ab", "b", 3) == Success("b")
  {
    assert "aab"[0..2] == "aa" && "aab"[1..3] == "ab";
    assert FindFrom("aab", "ab", 0) == Some(1);
    assert ReplaceFirst("aab", "ab", "b", 1) == "ab";
    assert FindFrom("ab", "ab", 0) == Some(0);
    assert ReplaceFirst("ab", "ab", "b", 0) == "b";
  }

  // ---------------------------------------------------------------------
  // Joining

  /** The parts in order with the separator between neighbours. */
  function Join(parts: seq<string>, sep: string): (r: string)
    ensures |parts| == 1 ==> r == parts[0]
    decreases |parts|
  {
    if |parts| == 0 then ""
    else if |parts| == 1 then parts[0]
    else Join(parts[..|parts| - 1], sep) + sep + parts[|parts| - 1]
  }

  /** The parts in order, each followed by the separator. */
  function Terminated(parts: seq<string>, sep: string): string
    decreases |parts|
  {
    if |parts| == 0 then "" else Terminated(parts[..|parts| - 1], sep) + parts[|parts| - 1] + sep
  }

  /** Each part followed by the separator is the joined parts and one more
      separator, so cutting that last separator gives the join. */
  lemma {:induction false} TerminatedIsJoin(parts: seq<string>, sep: string)
    requires |parts| > 0
    ensures Terminated(parts, sep) == Join(parts, sep) + sep
    decreases |parts|
  {
    var n := |parts|;
    if n == 1 {
      assert parts[..0] == [];
    } else {
      TerminatedIsJoin(parts[..n - 1], sep);
      assert parts[..n - 1][..n - 2] == parts[..n - 2];
    }
  }
}
