/**
 Character classes and string operations shared by the backend (C# string
 methods, and the SQLite functions the database evaluates) and the frontend
 (JavaScript string methods).

 There are two lower-casings. SQLite's lower() folds ASCII letters only
 (`SqlLower`). .NET ToLower and JavaScript toLowerCase also fold the
 capitals outside ASCII; the model folds those of Latin-1 (`Lower`). White
 space is the complete set of characters .NET char.IsWhiteSpace accepts.
 */
module Text {
  import opened Wrappers

  predicate IsAsciiUpper(c: char) { 'A' <= c <= 'Z' }

  predicate IsAsciiLower(c: char) { 'a' <= c <= 'z' }

  predicate IsAsciiDigit(c: char) { '0' <= c <= '9' }

  /** The characters .NET char.IsWhiteSpace (and so string.Trim) treats as white space. */
  predicate IsWhiteSpace(c: char) {
    || c == ' '
    || ('\t' <= c <= '\r')
    || c == '\U{85}'
    || c == '\U{A0}'
    || c == '\U{1680}'
    || ('\U{2000}' <= c <= '\U{200A}')
    || c == '\U{2028}'
    || c == '\U{2029}'
    || c == '\U{202F}'
    || c == '\U{205F}'
    || c == '\U{3000}'
  }

  /** A Latin-1 capital: U+00C0 to U+00DE, except the multiplication sign U+00D7. */
  predicate IsLatin1Upper(c: char) {
    '\U{C0}' <= c <= '\U{DE}' && c != '\U{D7}'
  }

  /** The capitals the model lower-cases the way .NET and JavaScript do. */
  predicate IsUpper(c: char) {
    IsAsciiUpper(c) || IsLatin1Upper(c)
  }

  /** .NET char.ToLower and JavaScript toLowerCase on one character: a capital becomes its small letter, 32 code points above it. */
  function LowerChar(c: char): (d: char)
    ensures IsUpper(c) ==> !IsUpper(d) && d as int == c as int + 32
    ensures !IsUpper(c) ==> d == c
  {
    if IsUpper(c) then (c as int + 32) as char else c
  }

  /** SQLite's lower() on one character: only an ASCII capital is lower-cased. */
  function SqlLowerChar(c: char): (d: char)
    ensures IsAsciiUpper(c) ==> IsAsciiLower(d) && d as int == c as int + 32
    ensures !IsAsciiUpper(c) ==> d == c
  {
    if IsAsciiUpper(c) then (c as int + 32) as char else c
  }

  /** Lower-casing never creates or destroys white space. */
  lemma LowerCharWhiteSpace(c: char)
    ensures IsWhiteSpace(LowerChar(c)) <==> IsWhiteSpace(c)
  {
  }

  /**
   .NET string.ToLower and JavaScript toLowerCase: every capital is replaced
   by its small letter in place, and every other character is kept.
   */
  function Lower(s: string): (r: string)
    ensures |r| == |s|
    ensures forall i :: 0 <= i < |r| ==> !IsUpper(r[i])
    ensures forall i :: 0 <= i < |s| && IsUpper(s[i]) ==> r[i] as int == s[i] as int + 32
    ensures forall i :: 0 <= i < |s| && !IsUpper(s[i]) ==> r[i] == s[i]
  {
    seq(|s|, i requires 0 <= i < |s| => LowerChar(s[i]))
  }

  /** SQLite's lower(): every ASCII capital is replaced by its small letter in place; all else, other capitals included, is kept. */
  function SqlLower(s: string): (r: string)
    ensures |r| == |s|
    ensures forall i :: 0 <= i < |s| && IsAsciiUpper(s[i]) ==> IsAsciiLower(r[i]) && r[i] as int == s[i] as int + 32
    ensures forall i :: 0 <= i < |s| && !IsAsciiUpper(s[i]) ==> r[i] == s[i]
  {
    seq(|s|, i requires 0 <= i < |s| => SqlLowerChar(s[i]))
  }

  /** .NET lower-casing after SQLite's is .NET lower-casing alone. */
  lemma LowerOfSqlLower(s: string)
    ensures Lower(SqlLower(s)) == Lower(s)
  {
  }

  /** Every capital of `s` is an ASCII one. */
  predicate AsciiCapitalsOnly(s: string) {
    forall i :: 0 <= i < |s| ==> !IsLatin1Upper(s[i])
  }

  /** The two lower-casings agree exactly on strings whose capitals are all ASCII. */
  lemma LowersAgree(s: string)
    ensures AsciiCapitalsOnly(s) <==> Lower(s) == SqlLower(s)
  {
  }

  /** SQLite's lower-casing keeps a string free of white space at its ends. */
  lemma SqlLowerKeepsTrimmed(s: string)
    requires IsTrimmed(s)
    ensures IsTrimmed(SqlLower(s))
  {
  }

  /** Lower-casing twice is lower-casing once. */
  lemma LowerIdempotent(s: string)
    ensures Lower(Lower(s)) == Lower(s)
  {
  }

  predicate AllWhiteSpace(s: string) {
    forall i :: 0 <= i < |s| ==> IsWhiteSpace(s[i])
  }

  /** string.IsNullOrWhiteSpace */
  predicate IsNullOrWhiteSpace(s: Option<string>) {
    s.None? || AllWhiteSpace(s.value)
  }

  /** string.IsNullOrEmpty */
  predicate IsNullOrEmpty(s: Option<string>) {
    s.None? || s.value == ""
  }

  /** No white space at either end. */
  predicate IsTrimmed(s: string) {
    |s| == 0 || (!IsWhiteSpace(s[0]) && !IsWhiteSpace(s[|s| - 1]))
  }

  /** Removes the longest all-white-space prefix. */
  function TrimStart(s: string): (r: string)
    ensures |r| <= |s|
    ensures |r| > 0 ==> !IsWhiteSpace(r[0])
  {
    if |s| > 0 && IsWhiteSpace(s[0]) then TrimStart(s[1..]) else s
  }

  /** TrimStart keeps a suffix of its input and removes only white space. */
  lemma {:induction false} TrimStartShape(s: string)
    ensures TrimStart(s) == s[|s| - |TrimStart(s)|..]
    ensures forall i :: 0 <= i < |s| - |TrimStart(s)| ==> IsWhiteSpace(s[i])
  {
    if |s| > 0 && IsWhiteSpace(s[0]) {
      TrimStartShape(s[1..]);
      forall i | 1 <= i < |s| - |TrimStart(s)| ensures IsWhiteSpace(s[i]) {
        assert s[i] == s[1..][i - 1];
      }
    }
  }

  /** Removes the longest all-white-space suffix. */
  function TrimEnd(s: string): (r: string)
    ensures |r| <= |s|
    ensures |r| > 0 ==> !IsWhiteSpace(r[|r| - 1])
  {
    if |s| > 0 && IsWhiteSpace(s[|s| - 1]) then TrimEnd(s[..|s| - 1]) else s
  }

  /** TrimEnd keeps a prefix of its input and removes only white space. */
  lemma {:induction false} TrimEndShape(s: string)
    ensures TrimEnd(s) == s[..|TrimEnd(s)|]
    ensures forall i :: |TrimEnd(s)| <= i < |s| ==> IsWhiteSpace(s[i])
  {
    if |s| > 0 && IsWhiteSpace(s[|s| - 1]) {
      TrimEndShape(s[..|s| - 1]);
      forall i | |TrimEnd(s)| <= i < |s| - 1 ensures IsWhiteSpace(s[i]) {
        assert s[i] == s[..|s| - 1][i];
      }
    }
  }

  /** Number of white-space characters Trim drops from the front of `s`. */
  function Leading(s: string): (n: nat)
    ensures n <= |s|
  {
    |s| - |TrimStart(s)|
  }

  /** string.Trim: the white space at both ends removed. */
  function Trim(s: string): (r: string)
    ensures IsTrimmed(r)
  {
    var t := TrimStart(s);
    TrimEndShape(t);
    TrimEnd(t)
  }

  /** What Trim removes is white space at the two ends: the middle of the string is kept as it was. */
  lemma TrimShape(s: string)
    ensures Leading(s) + |Trim(s)| <= |s|
    ensures Trim(s) == s[Leading(s)..Leading(s) + |Trim(s)|]
    ensures forall i :: 0 <= i < Leading(s) ==> IsWhiteSpace(s[i])
    ensures forall i :: Leading(s) + |Trim(s)| <= i < |s| ==> IsWhiteSpace(s[i])
  {
    var t := TrimStart(s);
    var r := TrimEnd(t);
    var n := Leading(s);
    TrimStartShape(s);
    TrimEndShape(t);
    forall i | 0 <= i < |r| ensures r[i] == s[n + i] {
      assert r[i] == t[i];
    }
    forall i | n + |r| <= i < |s| ensures IsWhiteSpace(s[i]) {
      assert s[i] == t[i - n];
    }
  }

  /** Trimming removes characters only, so it keeps every capital ASCII. */
  lemma TrimKeepsAsciiCapitals(s: string)
    requires AsciiCapitalsOnly(s)
    ensures AsciiCapitalsOnly(Trim(s))
  {
    TrimShape(s);
    forall i | 0 <= i < |Trim(s)| ensures !IsLatin1Upper(Trim(s)[i]) {
      assert Trim(s)[i] == s[Leading(s) + i];
    }
  }

  /** Trim returns the empty string exactly for blank input. */
  lemma TrimEmptyIffBlank(s: string)
    ensures Trim(s) == "" <==> AllWhiteSpace(s)
  {
    var r := Trim(s);
    TrimShape(s);
    if r != "" {
      assert s[Leading(s)] == r[0];
    }
  }

  /** A string with no white space at either end is its own trim. */
  lemma TrimOfTrimmed(s: string)
    requires IsTrimmed(s)
    ensures Trim(s) == s
  {
  }

  /** Trimming twice is trimming once. */
  lemma TrimIdempotent(s: string)
    ensures Trim(Trim(s)) == Trim(s)
  {
  }

  /** Lower-casing commutes with dropping leading white space. */
  lemma {:induction false} LowerTrimStart(s: string)
    ensures Lower(TrimStart(s)) == TrimStart(Lower(s))
  {
    LowerCharWhiteSpace(if |s| > 0 then s[0] else ' ');
    if |s| > 0 && IsWhiteSpace(s[0]) {
      assert Lower(s)[1..] == Lower(s[1..]);
      LowerTrimStart(s[1..]);
    }
  }

  /** Lower-casing commutes with dropping trailing white space. */
  lemma {:induction false} LowerTrimEnd(s: string)
    ensures Lower(TrimEnd(s)) == TrimEnd(Lower(s))
  {
    LowerCharWhiteSpace(if |s| > 0 then s[|s| - 1] else ' ');
    if |s| > 0 && IsWhiteSpace(s[|s| - 1]) {
      assert Lower(s)[..|s| - 1] == Lower(s[..|s| - 1]);
      LowerTrimEnd(s[..|s| - 1]);
    }
  }

  /**
   Lower-casing and trimming commute, so Register's Trim-then-ToLower key and
   Login's ToLower-then-Trim key are the same string.
   */
  lemma LowerTrimCommute(s: string)
    ensures Lower(Trim(s)) == Trim(Lower(s))
  {
    LowerTrimStart(s);
    LowerTrimEnd(TrimStart(s));
  }

  /** Removes the leading U+0020 spaces (and no other white space). */
  function TrimSpacesStart(s: string): (r: string)
    ensures |r| <= |s|
    ensures |r| > 0 ==> r[0] != ' '
  {
    if |s| > 0 && s[0] == ' ' then TrimSpacesStart(s[1..]) else s
  }

  /** Removes the trailing U+0020 spaces (and no other white space). */
  function TrimSpacesEnd(s: string): (r: string)
    ensures |r| <= |s|
    ensures |r| > 0 ==> r[|r| - 1] != ' ' && r[0] == s[0]
  {
    if |s| > 0 && s[|s| - 1] == ' ' then TrimSpacesEnd(s[..|s| - 1]) else s
  }

  /**
   SQLite's one-argument trim(): only the space character U+0020 is removed
   from the two ends; tabs, line breaks and the other white space stay.
   */
  function SqlTrim(s: string): (r: string)
    ensures |r| <= |s|
    ensures |r| > 0 ==> r[0] != ' ' && r[|r| - 1] != ' '
  {
    TrimSpacesEnd(TrimSpacesStart(s))
  }

  /** TrimSpacesStart keeps a suffix of its input and removes only spaces. */
  lemma {:induction false} TrimSpacesStartShape(s: string)
    ensures TrimSpacesStart(s) == s[|s| - |TrimSpacesStart(s)|..]
    ensures forall i :: 0 <= i < |s| - |TrimSpacesStart(s)| ==> s[i] == ' '
  {
    if |s| > 0 && s[0] == ' ' {
      TrimSpacesStartShape(s[1..]);
      forall i | 1 <= i < |s| - |TrimSpacesStart(s)| ensures s[i] == ' ' {
        assert s[i] == s[1..][i - 1];
      }
    }
  }

  /** TrimSpacesEnd keeps a prefix of its input and removes only spaces. */
  lemma {:induction false} TrimSpacesEndShape(s: string)
    ensures TrimSpacesEnd(s) == s[..|TrimSpacesEnd(s)|]
    ensures forall i :: |TrimSpacesEnd(s)| <= i < |s| ==> s[i] == ' '
  {
    if |s| > 0 && s[|s| - 1] == ' ' {
      TrimSpacesEndShape(s[..|s| - 1]);
      forall i | |TrimSpacesEnd(s)| <= i < |s| - 1 ensures s[i] == ' ' {
        assert s[i] == s[..|s| - 1][i];
      }
    }
  }

  /** Number of spaces SQLite's trim() drops from the front of `s`. */
  function LeadingSpaces(s: string): (n: nat)
    ensures n <= |s|
  {
    |s| - |TrimSpacesStart(s)|
  }

  /** What SQLite's trim() removes is spaces at the two ends: the middle of the string is kept as it was. */
  lemma SqlTrimShape(s: string)
    ensures LeadingSpaces(s) + |SqlTrim(s)| <= |s|
    ensures SqlTrim(s) == s[LeadingSpaces(s)..LeadingSpaces(s) + |SqlTrim(s)|]
    ensures forall i :: 0 <= i < LeadingSpaces(s) ==> s[i] == ' '
    ensures forall i :: LeadingSpaces(s) + |SqlTrim(s)| <= i < |s| ==> s[i] == ' '
  {
    var t := TrimSpacesStart(s);
    var r := TrimSpacesEnd(t);
    var n := LeadingSpaces(s);
    TrimSpacesStartShape(s);
    TrimSpacesEndShape(t);
    forall i | 0 <= i < |r| ensures r[i] == s[n + i] {
      assert r[i] == t[i];
    }
    forall i | n + |r| <= i < |s| ensures s[i] == ' ' {
      assert s[i] == t[i - n];
    }
  }

  /** On a string .NET Trim leaves alone, SQLite's trim() changes nothing either. */
  lemma SqlTrimOfTrimmed(s: string)
    requires IsTrimmed(s)
    ensures SqlTrim(s) == s
  {
  }

  /** SQLite's trim() keeps white space other than U+0020 that .NET Trim removes. */
  lemma SqlTrimKeepsTab()
    ensures SqlTrim("bob\t") == "bob\t"
    ensures Trim("bob\t") == "bob"
  {
  }

  /** `sub` occurs in `s` starting at index `i`. */
  predicate OccursAt(s: string, sub: string, i: int) {
    0 <= i <= |s| - |sub| && s[i..i + |sub|] == sub
  }

  /** String.prototype.includes: `sub` occurs in `s` at some position. */
  predicate Contains(s: string, sub: string) {
    exists i | 0 <= i <= |s| - |sub| :: OccursAt(s, sub, i)
  }

  /** The empty string occurs in every string. */
  lemma ContainsEmpty(s: string)
    ensures Contains(s, "")
  {
    assert OccursAt(s, "", 0);
  }
}
