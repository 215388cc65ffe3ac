/**
 * The palindrome check: a string is a palindrome when, once every non-word
 * character is removed and the rest is lower-cased, it reads the same
 * backward and forward ("Madam, I'm Adam." is one).
 *
 * A Java `String` that may be null is an `Option<string>`. Java's `\W`
 * (without the UNICODE_CHARACTER_CLASS flag) matches every character
 * outside `[a-zA-Z_0-9]`, so only ASCII characters survive the removal and
 * lower-casing them is ASCII lower-casing.
 */
module PalindromeUtil {
  import opened Wrappers
  import opened Exceptions

  /** A character of the regular-expression class `\w`: `[a-zA-Z_0-9]`. */
  predicate IsWordChar(c: char) {
    ('a' <= c <= 'z') || ('A' <= c <= 'Z') || ('0' <= c <= '9') || c == '_'
  }

  predicate IsUpper(c: char) {
    'A' <= c <= 'Z'
  }

  /** One character of `String.toLowerCase()`, on the ASCII range. */
  function ToLower(c: char): (d: char)
    ensures IsUpper(c) ==> d as int == c as int + 32
    ensures !IsUpper(c) ==> d == c
    ensures !IsUpper(d) && (IsWordChar(d) <==> IsWordChar(c))
  {
    if IsUpper(c) then (c as int + 32) as char else c
  }

  /** `s.replaceAll("[\\W]", "")`: the word characters of `s`, in order. */
  function RemoveNonWord(s: string): (r: string)
    ensures |r| <= |s|
  {
    if s == [] then []
    else (if IsWordChar(s[0]) then [s[0]] else []) + RemoveNonWord(s[1..])
  }

  /** `String.toLowerCase()`, character by character. */
  function Lowercase(s: string): (r: string)
    ensures |r| == |s|
  {
    if s == [] then [] else [ToLower(s[0])] + Lowercase(s[1..])
  }

  /** The string the check compares: the word characters of `s`, lower-cased. */
  function Normalize(s: string): string {
    Lowercase(RemoveNonWord(s))
  }

  function Reverse(s: string): string {
    if s == [] then [] else Reverse(s[1..]) + [s[0]]
  }

  /** The property the check decides: the string equals its reverse. */
  predicate IsPalindromic(t: string) {
    t == Reverse(t)
  }

  /** Character `i` of `t` equals its mirror image, character `|t| - 1 - i`. */
  predicate Mirrored(t: string, i: nat)
    requires i < |t|
  {
    t[i] == t[|t| - 1 - i]
  }

  /** `str.charAt(i)`: the character at `i`, or StringIndexOutOfBoundsException. */
  function CharAt(s: string, i: int): Result<char, Exception> {
    if 0 <= i < |s| then Success(s[i]) else Failure(StringIndexOutOfBounds)
  }

  lemma {:induction false} ReverseAt(s: string, k: nat)
    requires k < |s|
    ensures |Reverse(s)| == |s| && Reverse(s)[k] == s[|s| - 1 - k]
  {
    if k < |s| - 1 {
      ReverseAt(s[1..], k);
    } else {
      ReverseLength(s[1..]);
    }
  }

  lemma {:induction false} ReverseLength(s: string)
    ensures |Reverse(s)| == |s|
  {
    if s != [] {
      ReverseLength(s[1..]);
    }
  }

  /** A string equals its reverse exactly when every character matches its mirror image. */
  lemma PalindromicIff(t: string)
    ensures IsPalindromic(t) <==> forall i :: 0 <= i < |t| ==> Mirrored(t, i)
  {
    ReverseLength(t);
    forall i | 0 <= i < |t| ensures Reverse(t)[i] == t[|t| - 1 - i] {
      ReverseAt(t, i);
    }
    if forall i :: 0 <= i < |t| ==> Mirrored(t, i) {
      forall i | 0 <= i < |t| ensures t[i] == Reverse(t)[i] {
        assert Mirrored(t, i);
      }
    }
  }

  /**
   * Comparing the first half with the mirrored second half decides it: the
   * loop's extra comparison at `i == |t| / 2` (the middle character, or a
   * repeat of the previous pair when `|t|` is even) cannot change the
   * answer, and a one-character string is a palindrome.
   */
  lemma HalfSuffices(t: string)
    ensures IsPalindromic(t) <==> forall i :: 0 <= i < |t| / 2 ==> Mirrored(t, i)
  {
    PalindromicIff(t);
    if forall i :: 0 <= i < |t| / 2 ==> Mirrored(t, i) {
      forall k | 0 <= k < |t| ensures Mirrored(t, k) {
        var j := |t| - 1 - k;
        if j < |t| / 2 {
          assert Mirrored(t, j);
        } else if k < |t| / 2 {
          assert Mirrored(t, k);
        }
      }
    }
  }

  /** A string made of one word character is a palindrome after normalisation. */
  lemma SingleWordCharIsPalindromic(c: char)
    requires IsWordChar(c)
    ensures Normalize([c]) == [ToLower(c)] && IsPalindromic(Normalize([c]))
  {
    assert [c][1..] == [];
    HalfSuffices(Normalize([c]));
  }

  lemma {:induction false} RemoveNonWordAppend(a: string, b: string)
    ensures RemoveNonWord(a + b) == RemoveNonWord(a) + RemoveNonWord(b)
  {
    if a == [] {
      assert a + b == b;
    } else {
      var head := if IsWordChar(a[0]) then [a[0]] else [];
      assert (a + b)[0] == a[0] && (a + b)[1..] == a[1..] + b;
      assert RemoveNonWord(a + b) == head + RemoveNonWord(a[1..] + b);
      RemoveNonWordAppend(a[1..], b);
      assert RemoveNonWord(a) == head + RemoveNonWord(a[1..]);
      assert head + (RemoveNonWord(a[1..]) + RemoveNonWord(b)) == (head + RemoveNonWord(a[1..])) + RemoveNonWord(b);
    }
  }

  lemma {:induction false} LowercaseAppend(a: string, b: string)
    ensures Lowercase(a + b) == Lowercase(a) + Lowercase(b)
  {
    if a == [] {
      assert a + b == b;
    } else {
      assert (a + b)[1..] == a[1..] + b;
      LowercaseAppend(a[1..], b);
    }
  }

  /** Lower-casing works position by position. */
  lemma {:induction false} LowercaseAt(s: string, i: nat)
    requires i < |s|
    ensures Lowercase(s)[i] == ToLower(s[i])
  {
    if i > 0 {
      LowercaseAt(s[1..], i - 1);
    }
  }

  /** Normalisation works character by character: it distributes over concatenation. */
  lemma NormalizeAppend(a: string, b: string)
    ensures Normalize(a + b) == Normalize(a) + Normalize(b)
  {
    RemoveNonWordAppend(a, b);
    LowercaseAppend(RemoveNonWord(a), RemoveNonWord(b));
  }

  /** A single character normalises to itself lower-cased when it is a word character, and to nothing otherwise. */
  lemma NormalizeChar(c: char)
    ensures Normalize([c]) == if IsWordChar(c) then [ToLower(c)] else []
  {
    assert [c][1..] == [];
  }

  lemma NormalizeUnfold(s: string)
    requires s != []
    ensures Normalize(s) == Normalize([s[0]]) + Normalize(s[1..])
  {
    assert [s[0]] + s[1..] == s;
    NormalizeAppend([s[0]], s[1..]);
  }

  /** Whitespace and punctuation (any non-word character) are ignored. */
  lemma NormalizeIgnoresNonWord(a: string, c: char, b: string)
    requires !IsWordChar(c)
    ensures Normalize(a + [c] + b) == Normalize(a + b)
  {
    NormalizeAppend(a + [c], b);
    NormalizeAppend(a, [c]);
    NormalizeAppend(a, b);
    NormalizeChar(c);
    assert Normalize(a) + [] == Normalize(a);
  }

  /** Letters, digits and `_` are kept, lower-cased. */
  lemma NormalizeKeepsWordChars(a: string, c: char, b: string)
    requires IsWordChar(c)
    ensures Normalize(a + [c] + b) == Normalize(a) + [ToLower(c)] + Normalize(b)
  {
    NormalizeAppend(a + [c], b);
    NormalizeAppend(a, [c]);
    NormalizeChar(c);
  }

  /** Case is ignored: lower-casing the input first changes nothing. */
  lemma {:induction false} NormalizeIgnoresCase(s: string)
    ensures Normalize(Lowercase(s)) == Normalize(s)
  {
    if s != [] {
      var t := Lowercase(s);
      assert t == [ToLower(s[0])] + Lowercase(s[1..]);
      assert t[0] == ToLower(s[0]) && t[1..] == Lowercase(s[1..]);
      NormalizeIgnoresCase(s[1..]);
      NormalizeUnfold(t);
      NormalizeUnfold(s);
      NormalizeChar(s[0]);
      NormalizeChar(t[0]);
    }
  }

  /** Normalising twice is normalising once. */
  lemma {:induction false} NormalizeIdempotent(s: string)
    ensures Normalize(Normalize(s)) == Normalize(s)
  {
    if s != [] {
      NormalizeIdempotent(s[1..]);
      NormalizeUnfold(s);
      var head := Normalize([s[0]]);
      NormalizeChar(s[0]);
      NormalizeAppend(head, Normalize(s[1..]));
      if IsWordChar(s[0]) {
        NormalizeChar(ToLower(s[0]));
      }
    }
  }

  /** Normalisation leaves nothing exactly when the input has no word character ("!!", "  "). */
  lemma {:induction false} NormalizeEmptyIff(s: string)
    ensures Normalize(s) == [] <==> forall i :: 0 <= i < |s| ==> !IsWordChar(s[i])
  {
    if s != [] {
      NormalizeEmptyIff(s[1..]);
      NormalizeUnfold(s);
      NormalizeChar(s[0]);
      if forall i :: 0 <= i < |s[1..]| ==> !IsWordChar(s[1..][i]) {
        assert forall i :: 1 <= i < |s| ==> !IsWordChar(s[i]) by {
          forall i | 1 <= i < |s| ensures !IsWordChar(s[i]) {
            assert s[i] == s[1..][i - 1];
          }
        }
      } else {
        var j :| 0 <= j < |s[1..]| && IsWordChar(s[1..][j]);
        assert IsWordChar(s[j + 1]);
      }
    }
  }

  /** Exactly the word characters of the input survive normalisation. */
  lemma {:induction false} NormalizeContents(s: string, c: char)
    ensures c in Normalize(s) <==> exists i :: 0 <= i < |s| && IsWordChar(s[i]) && ToLower(s[i]) == c
  {
    if s != [] {
      NormalizeContents(s[1..], c);
      NormalizeUnfold(s);
      NormalizeChar(s[0]);
      if exists i :: 0 <= i < |s[1..]| && IsWordChar(s[1..][i]) && ToLower(s[1..][i]) == c {
        var i :| 0 <= i < |s[1..]| && IsWordChar(s[1..][i]) && ToLower(s[1..][i]) == c;
        assert s[i + 1] == s[1..][i];
      }
      if exists i :: 0 <= i < |s| && IsWordChar(s[i]) && ToLower(s[i]) == c {
        var i :| 0 <= i < |s| && IsWordChar(s[i]) && ToLower(s[i]) == c;
        if i > 0 {
          assert s[1..][i - 1] == s[i];
        }
      }
    }
  }

  /** The normalised string holds only lower-case word characters. */
  lemma NormalizedIsLowerWord(s: string)
    ensures forall c :: c in Normalize(s) ==> IsWordChar(c) && !IsUpper(c)
  {
    forall c | c in Normalize(s) ensures IsWordChar(c) && !IsUpper(c) {
      NormalizeContents(s, c);
    }
  }

  /**
   * `isPalindrome(str)` as written: false for null, true for the empty
   * string; otherwise it normalises and compares `s[i]` with its mirror for
   * every `i` from 0 to `|s| / 2` inclusive, returning false at the first
   * mismatch. When normalisation leaves nothing, `charAt(0)` throws.
   */
  method IsPalindrome(str: Option<string>) returns (r: Result<bool, Exception>)
    ensures str.None? ==> r == Success(false)
    ensures str == Some("") ==> r == Success(true)
    ensures str.Some? && str.value != "" && Normalize(str.value) == "" ==> r == Failure(StringIndexOutOfBounds)
    ensures str.Some? && Normalize(str.value) != "" ==> r == Success(IsPalindromic(Normalize(str.value)))
  {
    if str.None? {
      return Success(false);
    }
    if |str.value| == 0 {
      return Success(true);
    }
    var s := Normalize(str.value);
    var i := 0;
    while i <= |s| / 2
      invariant 0 <= i <= |s| && i <= |s| / 2 + 1
      invariant forall j :: 0 <= j < i ==> Mirrored(s, j)
    {
      var left := CharAt(s, i);
      if left.Failure? {
        return Failure(left.error);
      }
      // charAt(i) succeeded, so the mirror index |s| - i - 1 is in range too
      if left.value != s[|s| - i - 1] {
        assert !Mirrored(s, i);
        PalindromicIff(s);
        return Success(false);
      }
      i := i + 1;
    }
    HalfSuffices(s);
    return Success(true);
  }

  /**
   * The check as evidently intended: null is not a palindrome, and any other
   * string is one exactly when its normalised form equals its reverse (so a
   * string without word characters is one). The loop stops before the middle.
   */
  method IsPalindromeCorrected(str: Option<string>) returns (r: bool)
    ensures r <==> str.Some? && IsPalindromic(Normalize(str.value))
  {
    if str.None? {
      return false;
    }
    var s := Normalize(str.value);
    var i := 0;
    while i < |s| / 2
      invariant 0 <= i <= |s| / 2
      invariant forall j :: 0 <= j < i ==> Mirrored(s, j)
    {
      if s[i] != s[|s| - i - 1] {
        assert !Mirrored(s, i);
        PalindromicIff(s);
        return false;
      }
      i := i + 1;
    }
    HalfSuffices(s);
    return true;
  }

  /** Three characters normalise one by one, each to itself lower-cased if it is a word character and to nothing otherwise. */
  lemma NormalizeTriple(s: string, a: char, b: char, c: char)
    requires s == [a, b, c]
    ensures Normalize(s) == Normalize([a]) + Normalize([b]) + Normalize([c])
    ensures Normalize(s) == (if IsWordChar(a) then [ToLower(a)] else [])
                          + (if IsWordChar(b) then [ToLower(b)] else [])
                          + (if IsWordChar(c) then [ToLower(c)] else [])
  {
    assert s == [a] + [b] + [c];
    NormalizeAppend([a] + [b], [c]);
    NormalizeAppend([a], [b]);
    NormalizeChar(a);
    NormalizeChar(b);
    NormalizeChar(c);
  }

  /** A string cut into six pieces normalises to the pieces' normal forms, joined. */
  lemma NormalizePieces(s: string, p: string, q: string, u: string, v: string, w: string, x: string, t: string)
    requires s == p + q + u + v + w + x
    requires t == Normalize(p) + Normalize(q) + Normalize(u) + Normalize(v) + Normalize(w) + Normalize(x)
    ensures Normalize(s) == t
  {
    NormalizeAppend(p + q + u + v + w, x);
    NormalizeAppend(p + q + u + v, w);
    NormalizeAppend(p + q + u, v);
    NormalizeAppend(p + q, u);
    NormalizeAppend(p, q);
  }

  lemma MadamCut(s: string)
    requires s == "Madam, I'm Adam."
    ensures s == "Mad" + "am," + " I'" + "m A" + "dam" + "."
  {
  }

  lemma MadamimadamJoined()
    ensures "mad" + "am" + "i" + "ma" + "dam" + "" == "madamimadam"
  {
  }

  /** The class comment's example "Madam, I'm Adam." normalises to "madamimadam". */
  lemma MadamNormalizes(s: string)
    requires s == "Madam, I'm Adam."
    ensures Normalize(s) == "madamimadam"
  {
    var p, q, u, v, w, x := "Mad", "am,", " I'", "m A", "dam", ".";
    MadamCut(s);
    MadamimadamJoined();
    assert Normalize(p) == "mad" by { NormalizeTriple(p, 'M', 'a', 'd'); }
    assert Normalize(q) == "am" by { NormalizeTriple(q, 'a', 'm', ','); }
    assert Normalize(u) == "i" by { NormalizeTriple(u, ' ', 'I', '\''); }
    assert Normalize(v) == "ma" by { NormalizeTriple(v, 'm', ' ', 'A'); }
    assert Normalize(w) == "dam" by { NormalizeTriple(w, 'd', 'a', 'm'); }
    assert Normalize(x) == "" by { NormalizeChar('.'); }
    NormalizePieces(s, p, q, u, v, w, x, "madamimadam");
  }

  /** "madamimadam" reads the same backward. */
  lemma MadamimadamPalindromic(t: string)
    requires t == "madamimadam"
    ensures IsPalindromic(t)
  {
    HalfSuffices(t);
  }

  /** "Madam, I'm Adam." has word characters and is a palindrome once normalised. */
  lemma MadamPalindromic(s: string)
    requires s == "Madam, I'm Adam."
    ensures Normalize(s) != [] && IsPalindromic(Normalize(s))
  {
    MadamNormalizes(s);
    MadamimadamPalindromic(Normalize(s));
  }

  /** "Madam, I'm Adam." is a palindrome, for the check as written and as corrected. */
  method MadamExample() returns (r: Result<bool, Exception>, corrected: bool)
    ensures r == Success(true) && corrected
  {
    var s := "Madam, I'm Adam.";
    MadamPalindromic(s);
    r := IsPalindrome(Some(s));
    corrected := IsPalindromeCorrected(Some(s));
  }

  /** "!!" has no word character: the loop reads `charAt(0)` of the empty normalised string. */
  method PunctuationOnly() returns (r: Result<bool, Exception>, corrected: bool)
    ensures r == Failure(StringIndexOutOfBounds)
    ensures corrected
  {
    NormalizeEmptyIff("!!");
    r := IsPalindrome(Some("!!"));
    corrected := IsPalindromeCorrected(Some("!!"));
  }
}
