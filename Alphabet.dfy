/** An alphabet of encodable characters: a mapping between the characters and
    their indices 0..size-1 (enigma/Alphabet.java). The alphabet never changes
    after construction, so it is a value: a string with no repeated character. */
module Alphabets {
  import opened Errors

  /** No character occurs twice in s. */
  predicate Distinct(s: string) {
    forall i, j :: 0 <= i < j < |s| ==> s[i] != s[j]
  }

  /** Character number k of the alphabet has index k. */
  type Alphabet = s: string | Distinct(s)

  /** Index of the first occurrence of c in s, or -1 when c does not occur
      (the scan of String.indexOf and of the alphabet's own loops). */
  function IndexOf(s: string, c: char): (r: int)
    ensures -1 <= r < |s|
    ensures r == -1 <==> c !in s
    ensures 0 <= r ==> s[r] == c && c !in s[..r]
  {
    if s == [] then -1
    else if s[0] == c then 0
    else
      var k := IndexOf(s[1..], c);
      if k == -1 then -1
      else
        assert s[..k + 1] == [s[0]] + s[1..][..k];
        k + 1
  }

  /** In a string without repetitions the first occurrence of s[i] is i. */
  lemma {:induction false} IndexOfDistinct(s: string, i: int)
    requires Distinct(s) && 0 <= i < |s|
    ensures IndexOf(s, s[i]) == i
  {
    assert s[i] in s;
  }

  /** The first occurrence of c is at k when s[k] == c and c is not before k. */
  lemma {:induction false} IndexOfAt(s: string, c: char, k: int)
    requires 0 <= k < |s| && s[k] == c && c !in s[..k]
    ensures IndexOf(s, c) == k
  {
    var r := IndexOf(s, c);
    assert c in s;
    assert forall j :: 0 <= j < k ==> s[..k][j] == s[j];
    assert forall j :: 0 <= j < r ==> s[..r][j] == s[j];
  }

  /** Construction from a string: the source counts each character's
      occurrences in a map, then rejects any character counted twice. */
  method NewAlphabet(chars: string) returns (r: Result<Alphabet>)
    ensures r.Ok? <==> Distinct(chars)
    ensures r.Ok? ==> r.value == chars
    ensures r.Err? ==> r.error == DuplicateChar
  {
    var counts: map<char, nat> := map[];
    for k := 0 to |chars|
      invariant forall c :: c in counts <==> c in chars[..k]
      invariant forall c :: c in counts ==> counts[c] == multiset(chars[..k])[c]
    {
      var c := chars[k];
      assert chars[..k + 1] == chars[..k] + [c];
      if c in counts {
        counts := counts[c := counts[c] + 1];
      } else {
        counts := counts[c := 1];
      }
    }
    assert chars[..|chars|] == chars;
    var pending := counts.Keys;
    while pending != {}
      invariant pending <= counts.Keys
      invariant forall c :: c in counts && c !in pending ==> counts[c] <= 1
      decreases pending
    {
      var c :| c in pending;
      if counts[c] > 1 {
        DistinctIffSingleOccurrences(chars);
        return Err(DuplicateChar);
      }
      pending := pending - {c};
    }
    DistinctIffSingleOccurrences(chars);
    return Ok(chars);
  }

  /** A string has no repeated character iff every character occurs at most once. */
  lemma {:induction false} DistinctIffSingleOccurrences(s: string)
    ensures Distinct(s) <==> forall c :: multiset(s)[c] <= 1
  {
    if s != [] {
      var x, t := s[0], s[1..];
      assert s == [x] + t;
      DistinctIffSingleOccurrences(t);
      if Distinct(s) {
        forall j | 0 <= j < |t| ensures t[j] != x {
          assert s[0] != s[j + 1];
        }
        assert Distinct(t) by {
          forall i, j | 0 <= i < j < |t| ensures t[i] != t[j] {
            assert s[i + 1] != s[j + 1];
          }
        }
        forall c ensures multiset(s)[c] <= 1 {
          assert multiset(s)[c] == multiset(t)[c] + (if c == x then 1 else 0);
        }
      }
      if forall c :: multiset(s)[c] <= 1 {
        assert multiset(s)[x] == multiset(t)[x] + 1;
        assert x !in t;
        forall c ensures multiset(t)[c] <= 1 {
          assert multiset(s)[c] == multiset(t)[c] + (if c == x then 1 else 0);
        }
        forall i, j | 0 <= i < j < |s| ensures s[i] != s[j] {
          if i == 0 {
            assert s[j] == t[j - 1];
          } else {
            assert s[i] == t[i - 1] && s[j] == t[j - 1];
          }
        }
      }
    }
  }

  /** The no-argument alphabet of the source: the 26 upper-case letters in order. */
  function Upper(): (a: Alphabet)
    ensures |a| == 26
    ensures forall i :: 0 <= i < 26 ==> a[i] as int == 'A' as int + i
  {
    var s := seq(26, i requires 0 <= i < 26 => ('A' as int + i) as char);
    assert forall i :: 0 <= i < 26 ==> s[i] as int == 'A' as int + i;
    s
  }

  /** `size()`: the number of indices that name a character. */
  function Size(a: Alphabet): (r: nat)
    ensures forall i :: ToChar(a, i).Ok? <==> 0 <= i < r
  {
    |a|
  }

  /** The characters of a string, as a set. */
  function Chars(s: string): (r: set<char>)
    ensures forall c :: c in r <==> c in s
  {
    set c | c in s
  }

  /** The alphabet contains c. */
  function Contains(a: Alphabet, c: char): (r: bool)
    ensures r <==> c in a
  {
    IndexOf(a, c) != -1
  }

  /** Character number i; fails outside 0..size-1. */
  function ToChar(a: Alphabet, i: int): (r: Result<char>)
    ensures r.Ok? <==> 0 <= i < |a|
    ensures r.Err? ==> r.error == IndexOutOfRange
    ensures r.Ok? ==> r.value in a && IndexOf(a, r.value) == i
  {
    if i < 0 || i > |a| - 1 then Err(IndexOutOfRange)
    else
      IndexOfDistinct(a, i);
      Ok(a[i])
  }

  /** The index of c; fails when c is not in the alphabet. */
  function ToInt(a: Alphabet, c: char): (r: Result<int>)
    ensures r.Ok? <==> c in a
    ensures r.Err? ==> r.error == NotInAlphabet
    ensures r.Ok? ==> 0 <= r.value < |a| && a[r.value] == c
  {
    var k := IndexOf(a, c);
    if k == -1 then Err(NotInAlphabet) else Ok(k)
  }

  /** toInt undoes toChar on every index in range. */
  lemma {:induction false} ToIntToChar(a: Alphabet, i: int)
    requires 0 <= i < |a|
    ensures ToChar(a, i).Ok? && ToInt(a, ToChar(a, i).value) == Ok(i)
  {
  }

  /** toChar undoes toInt on every character of the alphabet. */
  lemma {:induction false} ToCharToInt(a: Alphabet, c: char)
    requires c in a
    ensures ToInt(a, c).Ok? && ToChar(a, ToInt(a, c).value) == Ok(c)
  {
  }
}
