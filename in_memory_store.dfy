/** `InMemoryRateLimitStore`: the key-to-counter dictionary, compared
    ordinal-case-insensitively, with `Get` and a last-writer-wins `Set`,
    both of which first observe the caller's cancellation token. */
module Store {
  import opened Basics
  import opened RateLimitCounters

  /** Ordinal case-insensitive comparison upper-cases each character;
      this model upper-cases the ASCII letters. */
  function FoldChar(c: char): (u: char)
    ensures 'a' <= c <= 'z' ==> 'A' <= u <= 'Z' && u as int == c as int - 32
    ensures !('a' <= c <= 'z') ==> u == c
  {
    if 'a' <= c <= 'z' then (c as int - 32) as char else c
  }

  /** The canonical spelling of a key: the one the dictionary files it under. */
  function FoldCase(s: string): (r: string)
    ensures |r| == |s|
    ensures forall i :: 0 <= i < |s| ==> r[i] == FoldChar(s[i])
  {
    if s == [] then [] else [FoldChar(s[0])] + FoldCase(s[1..])
  }

  /** `StringComparer.OrdinalIgnoreCase.Equals`, character by character. */
  predicate EqualsIgnoreCase(a: string, b: string) {
    |a| == |b| && forall i :: 0 <= i < |a| ==> FoldChar(a[i]) == FoldChar(b[i])
  }

  /** Two keys are filed under the same entry exactly when they are equal
      ignoring case. */
  lemma FoldCaseEqual(a: string, b: string)
    ensures FoldCase(a) == FoldCase(b) <==> EqualsIgnoreCase(a, b)
  {
    if EqualsIgnoreCase(a, b) {
      assert forall i :: 0 <= i < |a| ==> FoldCase(a)[i] == FoldCase(b)[i];
    }
  }

  /** Ignore-case equality is an equivalence, as a dictionary comparer must be. */
  lemma IgnoreCaseEquivalence(a: string, b: string, c: string)
    ensures EqualsIgnoreCase(a, a)
    ensures EqualsIgnoreCase(a, b) ==> EqualsIgnoreCase(b, a)
    ensures EqualsIgnoreCase(a, b) && EqualsIgnoreCase(b, c) ==> EqualsIgnoreCase(a, c)
  {
  }

  /** "abc", "ABC" and "aBc" are one key; "abd" and "ab" are others. Letters
      outside a..z are compared as they are. */
  lemma IgnoreCaseExamples()
    ensures EqualsIgnoreCase("abc", "ABC") && EqualsIgnoreCase("aBc", "AbC")
    ensures !EqualsIgnoreCase("abc", "abd") && !EqualsIgnoreCase("abc", "ab")
    ensures !EqualsIgnoreCase("a_1", "A-1")
  {
    assert FoldChar("abc"[2]) != FoldChar("abd"[2]);
    assert FoldChar("a_1"[1]) != FoldChar("A-1"[1]);
  }

  lemma FoldCaseAppend(a: string, b: string)
    ensures FoldCase(a + b) == FoldCase(a) + FoldCase(b)
  {
    assert forall i :: 0 <= i < |a + b| ==> FoldCase(a + b)[i] == (FoldCase(a) + FoldCase(b))[i];
  }

  /** The stored counter for `key`, looked up under its canonical spelling. */
  function Lookup(m: map<string, RateLimitCounter>, key: string): (r: Option<RateLimitCounter>)
    ensures r.Some? <==> FoldCase(key) in m
    ensures r.Some? ==> r.value == m[FoldCase(key)]
  {
    var k := FoldCase(key);
    if k in m then Some(m[k]) else None
  }

  /** Every entry is filed under its canonical key and holds a counter the
      counter constructor could have built. */
  ghost predicate WellFormed(m: map<string, RateLimitCounter>) {
    forall k :: k in m ==> FoldCase(k) == k && m[k].Valid()
  }

  class InMemoryRateLimitStore {
    var counters: map<string, RateLimitCounter>

    ghost predicate Valid()
      reads this
    {
      WellFormed(counters)
    }

    constructor()
      ensures Valid() && counters == map[]
    {
      counters := map[];
    }

    /** `GetAsync`: a pure read; absent keys give None. */
    method Get(key: string, cancelled: bool) returns (r: Result<Option<RateLimitCounter>>)
      requires Valid()
      ensures cancelled ==> r == Err(Cancelled)
      ensures !cancelled ==> r == Ok(Lookup(counters, key))
      ensures r.Ok? && r.value.Some? ==> r.value.value.Valid()
    {
      if cancelled {
        return Err(Cancelled);
      }
      r := Ok(Lookup(counters, key));
    }

    /** `SetAsync`: overwrites the entry for `key` unconditionally and leaves
        every other entry as it was; a cancelled call changes nothing. */
    method Set(key: string, counter: RateLimitCounter, cancelled: bool) returns (r: Outcome)
      requires Valid() && counter.Valid()
      modifies this
      ensures Valid()
      ensures cancelled ==> r == Fail(Cancelled) && counters == old(counters)
      ensures !cancelled ==> r == Pass && counters == old(counters)[FoldCase(key) := counter]
    {
      if cancelled {
        return Fail(Cancelled);
      }
      FoldCaseIdempotent(key);
      counters := counters[FoldCase(key) := counter];
      r := Pass;
    }
  }

  lemma FoldCaseIdempotent(s: string)
    ensures FoldCase(FoldCase(s)) == FoldCase(s)
  {
    assert forall i :: 0 <= i < |s| ==> FoldCase(FoldCase(s))[i] == FoldCase(s)[i];
  }

  /** Writing `key` and then reading any spelling of it gives what was written;
      reading any other key gives what was there before. */
  lemma LookupAfterWrite(m: map<string, RateLimitCounter>, key: string, c: RateLimitCounter, other: string)
    ensures EqualsIgnoreCase(key, other) ==> Lookup(m[FoldCase(key) := c], other) == Some(c)
    ensures !EqualsIgnoreCase(key, other) ==> Lookup(m[FoldCase(key) := c], other) == Lookup(m, other)
  {
    FoldCaseEqual(key, other);
  }

  /** Reads are case-insensitive: `Set("ABC", c)` makes `Get("abc")` return `c`. */
  lemma UpperCaseWriteLowerCaseRead(m: map<string, RateLimitCounter>, c: RateLimitCounter)
    ensures Lookup(m[FoldCase("ABC") := c], "abc") == Some(c)
  {
    LookupAfterWrite(m, "ABC", c, "abc");
  }
}
