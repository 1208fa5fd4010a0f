/**
POSIX user names of pkg/posix/username.go: what is left of a person's name, the base built from
it, and the numbered candidates tried in turn. Lengths are counted in characters, which are
bytes for an ASCII prefix.
 */
module PosixNames {
  const LOGIN_CAP := 32
  const SUFFIX_WIDTH := 3
  const MAX_COLLISION_SUFFIX := 999
  const LONGEST_PREFIX := LOGIN_CAP - 1 - SUFFIX_WIDTH

  // ---------- Normalised names ----------

  predicate IsNameChar(c: char) {
    'a' <= c <= 'z' || '0' <= c <= '9'
  }

  /** The name characters of s once each character is lower-cased. */
  function Normalized(s: string, lower: char -> char): string {
    if s == [] then []
    else
      var rest := Normalized(s[..|s| - 1], lower);
      var c := lower(s[|s| - 1]);
      if IsNameChar(c) then rest + [c] else rest
  }

  /** Lower-casing works character by character, with whatever table the runtime has. */
  method Normalize(s: string, lower: char -> char) returns (r: string)
    ensures r == Normalized(s, lower)
  {
    r := "";
    for i := 0 to |s|
      invariant r == Normalized(s[..i], lower)
    {
      assert s[..i + 1][..i] == s[..i];
      var c := lower(s[i]);
      if c > '\U{7F}' { continue; }
      if IsNameChar(c) { r := r + [c]; }
    }
    assert s[..|s|] == s;
  }

  lemma {:induction false} NormalizedIsClean(s: string, lower: char -> char)
    ensures forall i :: 0 <= i < |Normalized(s, lower)| ==> IsNameChar(Normalized(s, lower)[i])
    ensures |Normalized(s, lower)| <= |s|
  {
    if s != [] { NormalizedIsClean(s[..|s| - 1], lower); }
  }

  lemma {:induction false} CleanStays(s: string, lower: char -> char)
    requires forall c :: IsNameChar(c) ==> lower(c) == c
    requires forall i :: 0 <= i < |s| ==> IsNameChar(s[i])
    ensures Normalized(s, lower) == s
  {
    if s != [] { CleanStays(s[..|s| - 1], lower); }
  }

  /** Names can be normalised piece by piece, */
  lemma {:induction false} NormalizePieces(s: string, t: string, lower: char -> char)
    ensures Normalized(s + t, lower) == Normalized(s, lower) + Normalized(t, lower)
  {
    if t == [] {
      assert s + t == s;
    } else {
      NormalizePieces(s, t[..|t| - 1], lower);
      assert (s + t)[..|s + t| - 1] == s + t[..|t| - 1];
    }
  }

  /** down to the character: its lower case if that is a letter or a digit, else nothing. */
  lemma NormalizeOne(c: char, lower: char -> char)
    ensures Normalized([c], lower) == if 'a' <= lower(c) <= 'z' || '0' <= lower(c) <= '9' then [lower(c)] else []
  {
    assert [c][..0] == [];
  }

  /** Normalising again changes nothing. */
  lemma {:induction false} NormalizeTwiceIsOnce(s: string, lower: char -> char)
    requires forall c :: IsNameChar(c) ==> lower(c) == c
    ensures Normalized(Normalized(s, lower), lower) == Normalized(s, lower)
  {
    NormalizedIsClean(s, lower);
    CleanStays(Normalized(s, lower), lower);
  }

  // ---------- The base ----------

  /** Panics: the slice bound is negative. */
  datatype Base = Built(name: string, truncated: bool) | Unbuildable | Panics

  function LocalPart(first: string, last: string): string {
    if first != "" && last != "" then [first[0]] + last
    else if last != "" then last
    else first
  }

  method BuildBase(firstName: string, lastName: string, prefix: string, lower: char -> char) returns (r: Base)
    ensures r == BaseOf(Normalized(firstName, lower), Normalized(lastName, lower), prefix)
  {
    var first := Normalize(firstName, lower);
    var last := Normalize(lastName, lower);
    var local;
    if first != "" && last != "" {
      local := [first[0]] + last;
    } else if last != "" {
      local := last;
    } else if first != "" {
      local := first;
    } else {
      return Unbuildable;
    }
    var maxLocal := 32 - |prefix| - 1 - 3;
    var truncated := false;
    if |local| > maxLocal {
      if maxLocal < 0 { return Panics; }
      local := local[..maxLocal];
      truncated := true;
    }
    return Built(prefix + "-" + local, truncated);
  }

  function BaseOf(first: string, last: string, prefix: string): Base {
    var local := LocalPart(first, last);
    var room := LONGEST_PREFIX - |prefix|;
    if local == "" then Unbuildable
    else if room < 0 then Panics
    else if |local| > room then Built(prefix + "-" + local[..room], true)
    else Built(prefix + "-" + local, false)
  }

  /** The build fails exactly for nameless people, and breaks exactly for prefixes over 28 characters. */
  lemma BaseOutcomes(first: string, last: string, prefix: string)
    ensures BaseOf(first, last, prefix).Unbuildable? <==> first == "" && last == ""
    ensures BaseOf(first, last, prefix).Panics? <==> (first != "" || last != "") && |prefix| > 28
  {
  }

  /**
  A built base is the prefix, a dash, and the initial and last name (or the one name there is). It
  leaves room for any suffix and is cut only when it must be.
   */
  lemma BuiltBaseFits(first: string, last: string, prefix: string)
    requires BaseOf(first, last, prefix).Built?
    ensures var b := BaseOf(first, last, prefix);
      var local := if last == "" then first else if first == "" then last else first[..1] + last;
      && prefix + "-" <= b.name && |b.name| <= 29
      && b.name <= prefix + "-" + local
      && (b.truncated <==> |prefix| + 1 + |local| > 29)
      && (b.truncated ==> |b.name| == 29)
      && (!b.truncated ==> b.name == prefix + "-" + local)
  {
    if first != "" { assert first[..1] == [first[0]]; }
  }

  // ---------- The candidates ----------

  function Digit(d: nat): (c: char)
    requires d < 10
    ensures '0' <= c <= '9'
  {
    '0' + d as char
  }

  function Decimal(n: nat): (s: string) {
    if n < 10 then [Digit(n)] else Decimal(n / 10) + [Digit(n % 10)]
  }

  function Value(s: string): int {
    if s == "" then 0 else 10 * Value(s[..|s| - 1]) + (s[|s| - 1] as int - '0' as int)
  }

  /** Decimal notation reads back. */
  lemma {:induction false} DecimalReadsBack(n: nat)
    ensures Value(Decimal(n)) == n && |Decimal(n)| > 0
  {
    if n < 10 {
      assert [Digit(n)][..0] == "";
    } else {
      DecimalReadsBack(n / 10);
      var s := Decimal(n);
      assert s[..|s| - 1] == Decimal(n / 10);
    }
  }

  lemma DecimalIsShort(n: nat)
    requires n < 1000
    ensures |Decimal(n)| <= SUFFIX_WIDTH
  {
    var tens := n / 10;
    assert |Decimal(tens)| <= 2 by {
      if tens >= 10 { assert |Decimal(tens / 10)| == 1; }
    }
  }

  /** The n-th name tried: the base, then the base followed by 2, 3, ... */
  function Candidate(base: string, n: nat): string {
    if n == 0 then base else base + Decimal(n + 1)
  }

  lemma {:induction false} DecimalIsCanonical(n: nat)
    ensures forall i :: 0 <= i < |Decimal(n)| ==> '0' <= Decimal(n)[i] <= '9'
    ensures |Decimal(n)| > 0 && (n > 0 ==> Decimal(n)[0] != '0')
  {
    if n >= 10 { DecimalIsCanonical(n / 10); }
  }

  /** The first name tried is the base itself; the n-th after it ends in the decimal number n + 1. */
  lemma CandidateIs(base: string, n: nat)
    ensures base <= Candidate(base, n)
    ensures var suffix := Candidate(base, n)[|base|..];
      && (suffix == "" <==> n == 0)
      && (n > 0 ==> Value(suffix) == n + 1 && suffix[0] != '0' && forall i :: 0 <= i < |suffix| ==> '0' <= suffix[i] <= '9')
  {
    DecimalReadsBack(n + 1);
    DecimalIsCanonical(n + 1);
    if n > 0 { assert Candidate(base, n)[|base|..] == Decimal(n + 1); }
  }

  lemma CandidatesDiffer(base: string, i: nat, j: nat)
    requires i < j
    ensures Candidate(base, i) != Candidate(base, j)
  {
    DecimalReadsBack(j + 1);
    if i > 0 {
      DecimalReadsBack(i + 1);
      assert Candidate(base, i)[|base|..] == Decimal(i + 1);
      assert Candidate(base, j)[|base|..] == Decimal(j + 1);
    }
  }

  /** For every base that can be built, all candidates up to the last suffix fit the login cap. */
  lemma CandidateFits(first: string, last: string, prefix: string, n: nat)
    requires BaseOf(first, last, prefix).Built? && n < MAX_COLLISION_SUFFIX
    ensures |Candidate(BaseOf(first, last, prefix).name, n)| <= LOGIN_CAP
  {
    BuiltBaseFits(first, last, prefix);
    DecimalIsShort(n + 1);
  }
}
