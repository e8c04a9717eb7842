/** High-entropy passphrases (2017 day 4): a passphrase is valid when no word
    repeats, or, more strictly, when no two words are anagrams of each other;
    the answer counts the valid lines. */
module Passphrases {
  import opened Text

  // ---------------------------------------------------------------------------
  // Words and sorted letters

  /** The words of a passphrase, as `passphrase.split(' ')` gives them. */
  function Words(passphrase: string): seq<string> {
    Split(passphrase, " ")
  }

  /** No two entries of `s` are equal. */
  predicate Distinct<T(==)>(s: seq<T>) {
    forall i, j :: 0 <= i < j < |s| ==> s[i] != s[j]
  }

  /** Each letter is at most the next one. */
  predicate Ordered(s: string)
    decreases |s|
  {
    |s| <= 1 || (s[0] <= s[1] && Ordered(s[1..]))
  }

  /** `c` inserted into the ordered `s` before the first letter above it. */
  function Insert(c: char, s: string): (r: string)
    decreases |s|
  {
    if |s| == 0 || c <= s[0] then [c] + s else [s[0]] + Insert(c, s[1..])
  }

  /** `''.join(sorted(word))`: the letters of `word` in code-point order. */
  function SortedLetters(word: string): string
    decreases |word|
  {
    if |word| == 0 then "" else Insert(word[0], SortedLetters(word[1..]))
  }

  /** The first letter of an ordered string is at most each of its letters. */
  lemma {:induction false} HeadLeast(s: string, x: char)
    requires Ordered(s) && x in multiset(s)
    ensures |s| > 0 && s[0] <= x
    decreases |s|
  {
    HeadTail(s);
    if x != s[0] {
      HeadLeast(s[1..], x);
    }
  }

  lemma HeadTail(s: string)
    requires |s| > 0
    ensures multiset(s[1..]) == multiset(s) - multiset{s[0]}
    ensures s == [s[0]] + s[1..]
  {
    assert s == [s[0]] + s[1..];
  }

  /** Inserting keeps the string ordered, and its first letter is `c` or the
      old first letter. */
  lemma {:induction false} InsertOrdered(c: char, s: string)
    requires Ordered(s)
    ensures Ordered(Insert(c, s))
    ensures Insert(c, s)[0] == c || (|s| > 0 && Insert(c, s)[0] == s[0])
    decreases |s|
  {
    if |s| > 0 && c > s[0] {
      InsertOrdered(c, s[1..]);
      assert Insert(c, s)[1..] == Insert(c, s[1..]);
    } else {
      assert Insert(c, s)[1..] == s;
    }
  }

  /** Inserting adds exactly the one letter. */
  lemma {:induction false} InsertPermutes(c: char, s: string)
    ensures multiset(Insert(c, s)) == multiset(s) + multiset{c}
    decreases |s|
  {
    if |s| > 0 && c > s[0] {
      InsertPermutes(c, s[1..]);
      HeadTail(s);
    }
  }

  /** The sorted form is ordered and has exactly the letters of the word. */
  lemma {:induction false} SortedLettersPermutes(word: string)
    ensures Ordered(SortedLetters(word))
    ensures multiset(SortedLetters(word)) == multiset(word)
    decreases |word|
  {
    if |word| > 0 {
      SortedLettersPermutes(word[1..]);
      InsertOrdered(word[0], SortedLetters(word[1..]));
      InsertPermutes(word[0], SortedLetters(word[1..]));
      HeadTail(word);
    }
  }

  /** An ordered string is fixed by its letters. */
  lemma {:induction false} OrderedUnique(a: string, b: string)
    requires Ordered(a) && Ordered(b) && multiset(a) == multiset(b)
    ensures a == b
    decreases |a|
  {
    assert |a| == |multiset(a)| == |multiset(b)| == |b|;
    if |a| > 0 {
      HeadLeast(a, b[0]);
      HeadLeast(b, a[0]);
      assert a[0] == b[0];
      HeadTail(a);
      HeadTail(b);
      var a', b' := a[1..], b[1..];
      assert Ordered(a') && Ordered(b');
      assert multiset(a') == multiset(b');
      OrderedUnique(a', b');
    }
  }

  /** Two words have the same sorted form exactly when they are anagrams:
      the same letters, each as often. */
  lemma SortedLettersAnagram(u: string, v: string)
    ensures SortedLetters(u) == SortedLetters(v) <==> multiset(u) == multiset(v)
  {
    SortedLettersPermutes(u);
    SortedLettersPermutes(v);
    if multiset(u) == multiset(v) {
      OrderedUnique(SortedLetters(u), SortedLetters(v));
    }
  }

  // ---------------------------------------------------------------------------
  // passphrase_no_duplicate, passphrase_no_anagrams

  predicate NoDuplicate(passphrase: string) {
    Distinct(Words(passphrase))
  }

  /** The sorted forms of the words, in order. */
  function SortedWords(words: seq<string>): (r: seq<string>)
    ensures |r| == |words|
    ensures forall i :: 0 <= i < |words| ==> r[i] == SortedLetters(words[i])
  {
    seq(|words|, i requires 0 <= i < |words| => SortedLetters(words[i]))
  }

  predicate NoAnagrams(passphrase: string) {
    Distinct(SortedWords(Words(passphrase)))
  }

  /** `passphrase_no_duplicate`: the loop that stops at the first word it has
      seen before. */
  method PassphraseNoDuplicate(passphrase: string) returns (valid: bool)
    ensures valid <==> NoDuplicate(passphrase)
  {
    var words := Split(passphrase, " ");
    var seen: set<string> := {};
    for i := 0 to |words|
      invariant seen == set k | 0 <= k < i :: words[k]
      invariant Distinct(words[..i])
    {
      if words[i] in seen {
        ghost var k :| 0 <= k < i && words[k] == words[i];
        return false;
      }
      seen := seen + {words[i]};
    }
    assert words[..|words|] == words;
    return true;
  }

  /** `passphrase_no_anagrams`: the same loop over the sorted forms. */
  method PassphraseNoAnagrams(passphrase: string) returns (valid: bool)
    ensures valid <==> NoAnagrams(passphrase)
  {
    var words := Split(passphrase, " ");
    ghost var sorted := SortedWords(words);
    var seen: set<string> := {};
    for i := 0 to |words|
      invariant seen == set k | 0 <= k < i :: sorted[k]
      invariant Distinct(sorted[..i])
    {
      var sortedWord := SortedLetters(words[i]);
      if sortedWord in seen {
        ghost var k :| 0 <= k < i && sorted[k] == sorted[i];
        return false;
      }
      seen := seen + {sortedWord};
    }
    assert sorted[..|words|] == sorted;
    return true;
  }

  /** No anagrams means exactly: no two words share their letters. */
  lemma NoAnagramsMeaning(passphrase: string)
    ensures NoAnagrams(passphrase) <==>
      forall i, j :: 0 <= i < j < |Words(passphrase)| ==>
        multiset(Words(passphrase)[i]) != multiset(Words(passphrase)[j])
  {
    var words := Words(passphrase);
    forall i, j | 0 <= i < j < |words|
      ensures SortedWords(words)[i] == SortedWords(words)[j] <==> multiset(words[i]) == multiset(words[j])
    {
      SortedLettersAnagram(words[i], words[j]);
    }
  }

  /** The stricter rule: a passphrase without anagrams has no duplicate words. */
  lemma NoAnagramsNoDuplicate(passphrase: string)
    requires NoAnagrams(passphrase)
    ensures NoDuplicate(passphrase)
  {
    var words := Words(passphrase);
    forall i, j | 0 <= i < j < |words|
      ensures words[i] != words[j]
    {
      assert SortedWords(words)[i] != SortedWords(words)[j];
    }
  }

  // ---------------------------------------------------------------------------
  // count_passphrases

  /** How many of `data` the validator accepts. */
  function Count(data: seq<string>, validator: string -> bool): nat {
    if |data| == 0 then 0
    else Count(data[..|data| - 1], validator) + (if validator(data[|data| - 1]) then 1 else 0)
  }

  /** `count_passphrases(data, validator)`. */
  method CountPassphrases(data: seq<string>, validator: string -> bool) returns (count: nat)
    ensures count == Count(data, validator)
  {
    count := 0;
    for i := 0 to |data|
      invariant count == Count(data[..i], validator)
    {
      assert data[..i + 1][..i] == data[..i];
      if validator(data[i]) {
        count := count + 1;
      }
    }
    assert data[..|data|] == data;
  }

  /** At most every line is valid, and exactly every line when all pass. */
  lemma {:induction false} CountBounds(data: seq<string>, validator: string -> bool)
    ensures Count(data, validator) <= |data|
    ensures (forall i :: 0 <= i < |data| ==> validator(data[i])) ==> Count(data, validator) == |data|
    ensures (forall i :: 0 <= i < |data| ==> !validator(data[i])) ==> Count(data, validator) == 0
  {
    if |data| > 0 {
      var init := data[..|data| - 1];
      assert forall i :: 0 <= i < |init| ==> init[i] == data[i];
      CountBounds(init, validator);
    }
  }

  /** A stricter validator accepts no more lines. */
  lemma {:induction false} CountMonotone(data: seq<string>, strict: string -> bool, loose: string -> bool)
    requires forall p :: strict(p) ==> loose(p)
    ensures Count(data, strict) <= Count(data, loose)
  {
    if |data| > 0 {
      CountMonotone(data[..|data| - 1], strict, loose);
    }
  }

  /** Fewer lines pass the anagram rule than the duplicate rule. */
  lemma AnagramCountAtMostDuplicateCount(data: seq<string>)
    ensures Count(data, NoAnagrams) <= Count(data, NoDuplicate)
  {
    forall p | NoAnagrams(p)
      ensures NoDuplicate(p)
    {
      NoAnagramsNoDuplicate(p);
    }
    CountMonotone(data, NoAnagrams, NoDuplicate);
  }
}
