/** Random slugs over the base-62 alphabet, and the bounded retry that looks
    for one that is not taken yet. The random number generator is replaced by
    the indices it returns: every draw is a value of `nextInt(62)`. */
module SlugGenerator {
  import opened Wrappers
  import LinksTable

  const Digits: string := "0123456789"
  const Lower: string := "abcdefghijklmnopqrstuvwxyz"
  const Upper: string := "ABCDEFGHIJKLMNOPQRSTUVWXYZ"

  /** The symbols a slug is drawn from: digits, then lower case, then upper case. */
  const Alphabet: string := Digits + Lower + Upper

  /** Slug length when the caller gives none. */
  const DefaultLength: nat := 7

  /** Retry budget when the caller gives none. */
  const DefaultMaxRetries: nat := 5

  /** The character class `[0-9a-zA-Z]`. */
  predicate IsBase62(c: char) {
    '0' <= c <= '9' || 'a' <= c <= 'z' || 'A' <= c <= 'Z'
  }

  /** Every draw is a value `nextInt(62)` can return: an alphabet index. */
  predicate InRange(draws: seq<int>) {
    forall k :: 0 <= k < |draws| ==> 0 <= draws[k] < |Alphabet|
  }

  /** `length` draws, each a valid index into the alphabet. */
  predicate ValidDraws(draws: seq<int>, length: nat) {
    |draws| == length && InRange(draws)
  }

  /** Draws for a series of attempts, `length` per attempt. */
  predicate ValidAttempts(attempts: seq<seq<int>>, length: nat) {
    forall k {:trigger attempts[k]} :: 0 <= k < |attempts| ==> ValidDraws(attempts[k], length)
  }

  /** Code point of the `i`-th alphabet symbol. */
  function SymbolCode(i: int): (code: int)
  {
    if i < 10 then '0' as int + i
    else if i < 36 then 'a' as int + (i - 10)
    else 'A' as int + (i - 36)
  }

  /** The `i`-th symbol of the alphabet, by code point. */
  lemma AlphabetAt(i: int)
    requires 0 <= i < |Alphabet|
    ensures Alphabet[i] as int == SymbolCode(i)
  {
  }

  /** Position of a base-62 character in the alphabet (the decoding direction). */
  function IndexOf(c: char): (i: nat)
    requires IsBase62(c)
    ensures i < |Alphabet| && Alphabet[i] == c
  {
    var i := if c <= '9' then c as int - '0' as int
             else if 'a' <= c then c as int - 'a' as int + 10
             else c as int - 'A' as int + 36;
    AlphabetAt(i);
    i
  }

  /** The alphabet has 62 symbols, no symbol twice, and holds exactly the
      characters of `[0-9a-zA-Z]`. */
  lemma AlphabetIsBase62()
    ensures |Alphabet| == 62
    ensures forall i, j :: 0 <= i < j < |Alphabet| ==> Alphabet[i] != Alphabet[j]
    ensures forall c :: c in Alphabet <==> IsBase62(c)
  {
    forall i, j | 0 <= i < j < |Alphabet| ensures Alphabet[i] != Alphabet[j] {
      AlphabetAt(i);
      AlphabetAt(j);
    }
    forall c ensures c in Alphabet <==> IsBase62(c) {
      if c in Alphabet {
        var i :| 0 <= i < |Alphabet| && Alphabet[i] == c;
        AlphabetAt(i);
      }
      if IsBase62(c) {
        assert Alphabet[IndexOf(c)] == c;
      }
    }
  }

  /** The slug a sequence of draws spells: one alphabet symbol per draw. */
  function Spell(draws: seq<int>): (slug: string)
    requires InRange(draws)
    ensures |slug| == |draws|
    ensures forall k :: 0 <= k < |slug| ==> IsBase62(slug[k])
  {
    AlphabetIsBase62();
    seq(|draws|, k requires 0 <= k < |draws| => Alphabet[draws[k]])
  }

  /** Reads the draws back from a base-62 slug. */
  function Unspell(slug: string): (draws: seq<int>)
    requires forall k :: 0 <= k < |slug| ==> IsBase62(slug[k])
    ensures |draws| == |slug|
  {
    seq(|slug|, k requires 0 <= k < |slug| => IndexOf(slug[k]) as int)
  }

  /** Spelling loses nothing: the draws can be read back from the slug, so
      different draws always give different slugs. */
  lemma SpellRoundTrip(draws: seq<int>)
    requires InRange(draws)
    ensures Unspell(Spell(draws)) == draws
  {
    AlphabetIsBase62();
    var slug := Spell(draws);
    forall k | 0 <= k < |draws| ensures Unspell(slug)[k] == draws[k] {
      assert Alphabet[IndexOf(slug[k])] == Alphabet[draws[k]];
    }
  }

  /** And every base-62 slug is spelled by the draws read from it. */
  lemma UnspellRoundTrip(slug: string)
    requires forall k :: 0 <= k < |slug| ==> IsBase62(slug[k])
    ensures Spell(Unspell(slug)) == slug
  {
  }

  /** A slug of the default length fits the `slug` column. */
  lemma DefaultSlugFitsColumn(draws: seq<int>)
    requires ValidDraws(draws, DefaultLength)
    ensures |Spell(draws)| <= LinksTable.SlugMaxLength
  {
  }

  /** `generate(length)`: draw `length` symbols one after another and join them. */
  method Generate(length: nat, draws: seq<int>) returns (slug: string)
    requires ValidDraws(draws, length)
    ensures slug == Spell(draws)
  {
    slug := "";
    var i := 0;
    while i < length
      invariant 0 <= i <= length
      invariant |slug| == i
      invariant forall k :: 0 <= k < i ==> slug[k] == Alphabet[draws[k]]
    {
      slug := slug + [Alphabet[draws[i]]];
      i := i + 1;
    }
  }

  /** The retry budget ran out; carries the number of attempts made. */
  datatype Exhausted = Exhausted(attempts: nat)

  /** What `generate(length, maxRetries)` must produce when attempt `k`
      spells `attempts[k]` and `taken` answers the existence check: the first
      candidate that is not taken, found after as many checks as candidates
      tried, or exhaustion after exactly `maxRetries` checks, all taken. */
  ghost predicate FirstFree(
    attempts: seq<seq<int>>, length: nat, maxRetries: nat, taken: string -> bool,
    r: Result<string, Exhausted>, checks: nat)
    requires |attempts| >= maxRetries
    requires ValidAttempts(attempts, length)
  {
    && checks <= maxRetries
    && (forall k :: 0 <= k < checks - 1 ==> taken(Spell(attempts[k])))
    && (r.Success? ==>
          && 1 <= checks
          && r.value == Spell(attempts[checks - 1])
          && !taken(r.value))
    && (r.Failure? ==>
          && checks == maxRetries
          && r.error == Exhausted(maxRetries)
          && (maxRetries > 0 ==> taken(Spell(attempts[maxRetries - 1]))))
  }

  /** `generate(length, maxRetries)` of the class that takes the repository:
      up to `maxRetries` times, draw a candidate and ask whether it exists;
      return the first free one, otherwise fail. `checks` counts the calls
      to the existence check. */
  method GenerateUnique(
    length: nat, maxRetries: nat, attempts: seq<seq<int>>, taken: string -> bool)
    returns (r: Result<string, Exhausted>, checks: nat)
    requires |attempts| >= maxRetries
    requires ValidAttempts(attempts, length)
    ensures FirstFree(attempts, length, maxRetries, taken, r, checks)
    ensures r.Success? ==> |r.value| == length
  {
    checks := 0;
    while checks < maxRetries
      invariant checks <= maxRetries
      invariant forall k :: 0 <= k < checks ==> taken(Spell(attempts[k]))
    {
      var candidate := Generate(length, attempts[checks]);
      checks := checks + 1;
      if !taken(candidate) {
        return Success(candidate), checks;
      }
    }
    r := Failure(Exhausted(maxRetries));
  }

  /** `FirstFree` pins the outcome down completely: there is one right answer. */
  lemma FirstFreeDeterministic(
    attempts: seq<seq<int>>, length: nat, maxRetries: nat, taken: string -> bool,
    r1: Result<string, Exhausted>, c1: nat, r2: Result<string, Exhausted>, c2: nat)
    requires |attempts| >= maxRetries
    requires ValidAttempts(attempts, length)
    requires FirstFree(attempts, length, maxRetries, taken, r1, c1)
    requires FirstFree(attempts, length, maxRetries, taken, r2, c2)
    ensures r1 == r2 && c1 == c2
  {
  }

  /** Succeeds exactly when one of the first `maxRetries` candidates is free. */
  lemma FirstFreeSucceedsIff(
    attempts: seq<seq<int>>, length: nat, maxRetries: nat, taken: string -> bool,
    r: Result<string, Exhausted>, checks: nat)
    requires |attempts| >= maxRetries
    requires ValidAttempts(attempts, length)
    requires FirstFree(attempts, length, maxRetries, taken, r, checks)
    ensures r.Success? <==> exists k :: 0 <= k < maxRetries && !taken(Spell(attempts[k]))
  {
    if r.Success? {
      assert !taken(Spell(attempts[checks - 1]));
    }
  }

  /** First candidate free: it is returned after exactly one check. */
  lemma FirstCandidateFree(
    attempts: seq<seq<int>>, length: nat, maxRetries: nat, taken: string -> bool,
    r: Result<string, Exhausted>, checks: nat)
    requires |attempts| >= maxRetries >= 1
    requires ValidAttempts(attempts, length)
    requires !taken(Spell(attempts[0]))
    requires FirstFree(attempts, length, maxRetries, taken, r, checks)
    ensures r == Success(Spell(attempts[0])) && checks == 1
  {
  }

  /** Existence answers true, true, false: the third candidate is returned
      after exactly three checks. */
  lemma ThirdCandidateFree(
    attempts: seq<seq<int>>, length: nat, maxRetries: nat, taken: string -> bool,
    r: Result<string, Exhausted>, checks: nat)
    requires |attempts| >= maxRetries >= 3
    requires ValidAttempts(attempts, length)
    requires taken(Spell(attempts[0])) && taken(Spell(attempts[1]))
    requires !taken(Spell(attempts[2]))
    requires FirstFree(attempts, length, maxRetries, taken, r, checks)
    ensures r == Success(Spell(attempts[2])) && checks == 3
  {
  }

  /** Every candidate collides: with a budget of three, failure citing three
      attempts after exactly three checks. */
  lemma AllCandidatesTaken(
    attempts: seq<seq<int>>, length: nat, taken: string -> bool,
    r: Result<string, Exhausted>, checks: nat)
    requires |attempts| >= 3
    requires ValidAttempts(attempts, length)
    requires forall k :: 0 <= k < 3 ==> taken(Spell(attempts[k]))
    requires FirstFree(attempts, length, 3, taken, r, checks)
    ensures r == Failure(Exhausted(3)) && checks == 3
  {
    FirstFreeSucceedsIff(attempts, length, 3, taken, r, checks);
  }
}
