/**
 * The English letter-frequency scorer (code/python-processor/freq_analysis.py):
 * count the letters of a text, order the alphabet from most to least frequent
 * (ties broken by reverse ETAOIN position), and score how many of the six most
 * and six least frequent letters agree with English.
 */
module FreqAnalysis {
  import opened Text
  import opened Sorting

  /** The letters of English from most to least frequent. */
  const ETAOIN: string := "ETAOINSHRDLCUMWFGYPBVKJXQZ"

  /** The alphabet get_letter_count counts, A to Z (spelled out in LettersSpelledOut). */
  const LETTERS: string := Alphabet(26)

  /** The first n letters of the alphabet. */
  function Alphabet(n: nat): string
    requires n <= 26
  {
    seq(n, i requires 0 <= i < n => ('A' as int + i) as char)
  }

  /** The letters in reverse ETAOIN order: the frequency order of a text without letters. */
  const NO_LETTER_ORDER: string := "ZQXJKVBPYGFWMUCLDRHSNIOATE"

  predicate IsLetter(c: char) {
    'A' <= c <= 'Z'
  }

  lemma LettersSpelledOut()
    ensures LETTERS == "ABCDEFGHIJKLMNOPQRSTUVWXYZ"
  {
  }

  /** LETTERS is the alphabet, each letter once. */
  lemma LettersFacts()
    ensures |LETTERS| == 26 && NoDuplicates(LETTERS)
    ensures forall c :: c in LETTERS <==> IsLetter(c)
  {
    forall c | IsLetter(c) ensures c in LETTERS {
      assert LETTERS[c as int - 'A' as int] == c;
    }
  }

  /** Where each of A, B, ..., Z sits in ETAOIN. */
  const ETAOIN_POSITION: seq<int> :=
    [2, 19, 11, 9, 0, 15, 16, 7, 4, 22, 21, 10, 13, 5, 3, 18, 24, 8, 6, 1, 12, 20, 14, 23, 17, 25]

  /** ETAOIN_POSITION and ETAOIN undo each other. */
  lemma EtaoinPositions()
    ensures |ETAOIN| == 26
    ensures forall k :: 0 <= k < 26 ==> IsLetter(ETAOIN[k]) && ETAOIN_POSITION[ETAOIN[k] as int - 'A' as int] == k
    ensures forall c :: IsLetter(c) ==>
      0 <= ETAOIN_POSITION[c as int - 'A' as int] < 26 && ETAOIN[ETAOIN_POSITION[c as int - 'A' as int]] == c
  {
    PositionsOfEtaoin();
    EtaoinAtPositions();
    forall c | IsLetter(c)
      ensures 0 <= ETAOIN_POSITION[c as int - 'A' as int] < 26 && ETAOIN[ETAOIN_POSITION[c as int - 'A' as int]] == c
    {
      var m := c as int - 'A' as int;
      assert ETAOIN[ETAOIN_POSITION[m]] as int == 'A' as int + m;
    }
  }

  /** Letter k of ETAOIN is recorded at position k. */
  lemma PositionsOfEtaoin()
    ensures |ETAOIN| == 26
    ensures forall k :: 0 <= k < 26 ==> IsLetter(ETAOIN[k]) && ETAOIN_POSITION[ETAOIN[k] as int - 'A' as int] == k
  {
  }

  /** The position recorded for letter m of the alphabet holds that letter in ETAOIN. */
  lemma EtaoinAtPositions()
    ensures forall m :: 0 <= m < 26 ==> 0 <= ETAOIN_POSITION[m] < 26 && ETAOIN[ETAOIN_POSITION[m]] as int == 'A' as int + m
  {
  }

  /** ETAOIN holds every letter, and nothing else, exactly once. */
  lemma EtaoinLetters()
    ensures |ETAOIN| == 26 && NoDuplicates(ETAOIN)
    ensures forall c :: c in ETAOIN <==> IsLetter(c)
  {
    EtaoinPositions();
    forall c | IsLetter(c) ensures c in ETAOIN {
      assert ETAOIN[ETAOIN_POSITION[c as int - 'A' as int]] == c;
    }
    forall i, j | 0 <= i < j < 26 ensures ETAOIN[i] != ETAOIN[j] {
      assert ETAOIN_POSITION[ETAOIN[i] as int - 'A' as int] == i;
    }
  }

  /** ETAOIN is a rearrangement of the alphabet. */
  lemma EtaoinFacts()
    ensures |ETAOIN| == 26 && NoDuplicates(ETAOIN)
    ensures forall c :: c in ETAOIN <==> IsLetter(c)
    ensures multiset(ETAOIN) == multiset(LETTERS)
  {
    LettersFacts();
    EtaoinLetters();
    PermutationOfDistinct(ETAOIN, LETTERS);
  }

  /** `str.upper()` on one character; only a to z change. */
  function Upper(c: char): (u: char)
    ensures IsLetter(u) <==> IsLetter(c) || 'a' <= c <= 'z'
    ensures 'a' <= c <= 'z' ==> u as int == c as int - 32
    ensures !('a' <= c <= 'z') ==> u == c
  {
    if 'a' <= c <= 'z' then (c as int - 32) as char else c
  }

  /** `message.upper()`. */
  function UpperText(message: string): string {
    seq(|message|, i requires 0 <= i < |message| => Upper(message[i]))
  }

  /** How many characters of the message are the given letter once upper-cased. */
  function LetterCount(message: string, letter: char): nat {
    if message == [] then 0
    else LetterCount(message[..|message| - 1], letter) + (if Upper(message[|message| - 1]) == letter then 1 else 0)
  }

  /** The dictionary get_letter_count returns: each of the 26 letters with its count. */
  function Histogram(message: string): map<char, nat> {
    map c | c in LETTERS :: LetterCount(message, c)
  }

  /**
   * get_letter_count: start every letter at zero, then add one for each
   * character of the upper-cased text that is a letter.
   */
  method GetLetterCount(message: string) returns (letterCount: map<char, nat>)
    requires IsAscii(message)
    ensures forall c :: c in letterCount <==> IsLetter(c)
    ensures forall c :: c in letterCount ==> letterCount[c] == LetterCount(message, c)
    ensures letterCount == Histogram(message)
  {
    LettersFacts();
    letterCount := map c | c in LETTERS :: 0;
    var upper := UpperText(message);
    for i := 0 to |upper|
      invariant forall c :: c in letterCount <==> c in LETTERS
      invariant forall c :: c in letterCount ==> letterCount[c] == LetterCount(message[..i], c)
    {
      var letter := upper[i];
      assert message[..i + 1][..i] == message[..i];
      if letter in LETTERS {
        letterCount := letterCount[letter := letterCount[letter] + 1];
      }
    }
    assert message[..|message|] == message;
  }

  /** Counting a concatenation is adding the counts of its parts. */
  lemma {:induction false} LetterCountAppend(a: string, b: string, letter: char)
    ensures LetterCount(a + b, letter) == LetterCount(a, letter) + LetterCount(b, letter)
  {
    if b == [] {
      assert a + b == a;
    } else {
      LetterCountAppend(a, b[..|b| - 1], letter);
      assert (a + b)[..|a + b| - 1] == a + b[..|b| - 1];
    }
  }

  /** Counting ignores case: two texts that agree once upper-cased have the same histogram. */
  lemma HistogramIgnoresCase(a: string, b: string)
    requires |a| == |b|
    requires forall i :: 0 <= i < |a| ==> Upper(a[i]) == Upper(b[i])
    ensures Histogram(a) == Histogram(b)
  {
    forall c | c in LETTERS ensures LetterCount(a, c) == LetterCount(b, c) {
      LetterCountSameUpper(a, b, c);
    }
  }

  lemma {:induction false} LetterCountSameUpper(a: string, b: string, letter: char)
    requires |a| == |b|
    requires forall i :: 0 <= i < |a| ==> Upper(a[i]) == Upper(b[i])
    ensures LetterCount(a, letter) == LetterCount(b, letter)
  {
    if a != [] {
      LetterCountSameUpper(a[..|a| - 1], b[..|b| - 1], letter);
    }
  }

  /** Characters that are not letters in either case are not counted, wherever they are inserted. */
  lemma HistogramIgnoresNonLetter(before: string, c: char, after: string)
    requires !IsLetter(Upper(c))
    ensures Histogram(before + [c] + after) == Histogram(before + after)
  {
    forall letter | letter in LETTERS
      ensures LetterCount(before + [c] + after, letter) == LetterCount(before + after, letter)
    {
      LetterCountAppend(before + [c], after, letter);
      LetterCountAppend(before, [c], letter);
      LetterCountAppend(before, after, letter);
      assert [c][..0] == [];
    }
  }

  /** How many characters of the text are letters in either case. */
  function LetterTotal(message: string): nat {
    if message == [] then 0
    else LetterTotal(message[..|message| - 1]) + (if IsLetter(Upper(message[|message| - 1])) then 1 else 0)
  }

  /** The counts of the given letters added up. */
  function Total(hist: map<char, nat>, letters: string): nat {
    if letters == [] then 0 else CountOf(hist, letters[0]) + Total(hist, letters[1..])
  }

  /** One more character adds one to the total of the letters it is among, else nothing. */
  lemma {:induction false} TotalOfOneMore(message: string, c: char, letters: string)
    requires NoDuplicates(letters)
    requires forall k :: 0 <= k < |letters| ==> IsLetter(letters[k])
    ensures Total(Histogram(message + [c]), letters)
      == Total(Histogram(message), letters) + (if Upper(c) in letters then 1 else 0)
  {
    LettersFacts();
    if letters != [] {
      TotalOfOneMore(message, c, letters[1..]);
      assert (message + [c])[..|message + [c]| - 1] == message;
      assert Upper(c) in letters <==> Upper(c) == letters[0] || Upper(c) in letters[1..];
      assert letters[0] !in letters[1..];
    }
  }

  /** The 26 counts add up to the number of letters in the text. */
  lemma {:induction false} CountsAddUpToLetters(message: string)
    ensures Total(Histogram(message), LETTERS) == LetterTotal(message)
  {
    LettersFacts();
    if message == [] {
      assert forall letters: string :: Total(Histogram(message), letters) == 0 by {
        forall letters: string ensures Total(Histogram(message), letters) == 0 {
          TotalOfNothing(letters);
        }
      }
    } else {
      var prefix := message[..|message| - 1];
      CountsAddUpToLetters(prefix);
      TotalOfOneMore(prefix, message[|message| - 1], LETTERS);
      assert prefix + [message[|message| - 1]] == message;
    }
  }

  lemma {:induction false} TotalOfNothing(letters: string)
    ensures Total(Histogram([]), letters) == 0
  {
    if letters != [] {
      TotalOfNothing(letters[1..]);
    }
  }

  /** `s.find(c)`: the first position of c in s, or -1 when it does not occur. */
  function Find(s: string, c: char): (r: int)
    ensures -1 <= r < |s|
    ensures r == -1 <==> c !in s
    ensures r >= 0 ==> s[r] == c && c !in s[..r]
  {
    if s == [] then -1
    else if s[0] == c then 0
    else
      var r := Find(s[1..], c);
      assert s[1..][..r + 1] == s[1..r + 2] by {
        if r >= 0 {
          assert s[1..][..r] == s[1..r + 1];
        }
      }
      if r < 0 then -1 else r + 1
  }

  /** `ETAOIN.find(c)`. */
  function EtaoinIndex(c: char): int {
    Find(ETAOIN, c)
  }

  /** In a list without duplicates, `find` of the element at position k is k. */
  lemma FindDistinct(s: string, k: nat)
    requires NoDuplicates(s) && k < |s|
    ensures Find(s, s[k]) == k
  {
  }

  /** Every letter has a position in ETAOIN, and position k holds the k-th letter there. */
  lemma EtaoinIndexFacts()
    ensures forall c :: IsLetter(c) ==> 0 <= EtaoinIndex(c) < 26 && ETAOIN[EtaoinIndex(c)] == c
    ensures forall k :: 0 <= k < 26 ==> EtaoinIndex(ETAOIN[k]) == k
  {
    EtaoinLetters();
    forall k | 0 <= k < 26 ensures EtaoinIndex(ETAOIN[k]) == k {
      FindDistinct(ETAOIN, k);
    }
  }

  /** The count of a letter in a histogram, zero where it is missing. */
  function CountOf(hist: map<char, nat>, c: char): nat {
    if c in hist then hist[c] else 0
  }

  /** The sort key of the frequency order: count first, ETAOIN position second. */
  function Rank(hist: map<char, nat>, c: char): int {
    26 * CountOf(hist, c) + EtaoinIndex(c)
  }

  function RankOf(hist: map<char, nat>): char -> int {
    c => Rank(hist, c)
  }

  /**
   * The order get_frequeny_order produces for a histogram: the alphabet from
   * the most to the least frequent letter, letters of equal count in reverse
   * ETAOIN order.
   */
  function FrequencyOrder(hist: map<char, nat>): string {
    SortDescending(LETTERS, RankOf(hist))
  }

  /** A count and a position below 26 are recovered from 26 * count + position. */
  lemma RankParts(a: int, b: int, e1: int, e2: int)
    requires 0 <= e1 < 26 && 0 <= e2 < 26
    ensures 26 * a + e1 == 26 * b + e2 ==> a == b && e1 == e2
    ensures a > b ==> 26 * a + e1 > 26 * b + e2
  {
  }

  /** Different letters never share a rank. */
  lemma RanksDiffer(hist: map<char, nat>, c: char, d: char)
    requires IsLetter(c) && IsLetter(d) && c != d
    ensures Rank(hist, c) != Rank(hist, d)
  {
    EtaoinIndexFacts();
    var e1, e2 := EtaoinIndex(c), EtaoinIndex(d);
    RankParts(CountOf(hist, c), CountOf(hist, d), e1, e2);
    assert e1 != e2 by {
      assert ETAOIN[e1] == c && ETAOIN[e2] == d;
    }
  }

  /** Distinct letters have distinct ranks. */
  lemma DistinctRanks(hist: map<char, nat>, letters: string)
    requires NoDuplicates(letters)
    requires forall k :: 0 <= k < |letters| ==> IsLetter(letters[k])
    ensures DistinctKeys(letters, RankOf(hist))
  {
    forall i, j | 0 <= i < j < |letters| ensures RankOf(hist)(letters[i]) != RankOf(hist)(letters[j]) {
      RanksDiffer(hist, letters[i], letters[j]);
    }
  }

  /** The frequency order ranks its letters strictly from the highest rank down. */
  lemma FrequencyOrderStrict(hist: map<char, nat>)
    ensures StrictlyDown(FrequencyOrder(hist), RankOf(hist))
    ensures forall c :: c in FrequencyOrder(hist) <==> IsLetter(c)
  {
    LettersFacts();
    DistinctRanks(hist, LETTERS);
    SortDescendingMembers(LETTERS, RankOf(hist));
    forall c ensures c in FrequencyOrder(hist) <==> IsLetter(c) {
      assert c in FrequencyOrder(hist) <==> c in LETTERS;
    }
  }

  /**
   * The frequency order lists each letter once; counts never grow along it;
   * letters with the same count come in reverse ETAOIN order.
   */
  lemma FrequencyOrderMeaning(hist: map<char, nat>)
    ensures var order := FrequencyOrder(hist);
      && |order| == 26 && NoDuplicates(order)
      && (forall c :: c in order <==> IsLetter(c))
      && (forall i, j :: 0 <= i < j < 26 ==> CountOf(hist, order[i]) >= CountOf(hist, order[j]))
      && (forall i, j :: 0 <= i < j < 26 && CountOf(hist, order[i]) == CountOf(hist, order[j])
            ==> EtaoinIndex(order[i]) > EtaoinIndex(order[j]))
  {
    var order := FrequencyOrder(hist);
    LettersFacts();
    EtaoinIndexFacts();
    FrequencyOrderStrict(hist);
    assert |order| == |multiset(order)| == 26;
    forall i, j | 0 <= i < j < 26
      ensures order[i] != order[j]
      ensures CountOf(hist, order[i]) >= CountOf(hist, order[j])
      ensures CountOf(hist, order[i]) == CountOf(hist, order[j]) ==> EtaoinIndex(order[i]) > EtaoinIndex(order[j])
    {
      assert RankOf(hist)(order[i]) > RankOf(hist)(order[j]);
      assert order[i] in order && order[j] in order;
    }
  }

  /** NO_LETTER_ORDER is ETAOIN read backwards. */
  lemma NoLetterOrderReversed()
    ensures |NO_LETTER_ORDER| == 26
    ensures forall k :: 0 <= k < 26 ==> NO_LETTER_ORDER[k] == ETAOIN[25 - k]
  {
  }

  /** NO_LETTER_ORDER holds every letter, with ETAOIN positions going strictly down. */
  lemma NoLetterOrderFacts()
    ensures forall c :: c in NO_LETTER_ORDER <==> IsLetter(c)
    ensures forall i, j :: 0 <= i < j < |NO_LETTER_ORDER| ==> EtaoinIndex(NO_LETTER_ORDER[i]) > EtaoinIndex(NO_LETTER_ORDER[j])
  {
    NoLetterOrderReversed();
    EtaoinIndexFacts();
    EtaoinLetters();
    forall i | 0 <= i < 26 ensures EtaoinIndex(NO_LETTER_ORDER[i]) == 25 - i {
      assert NO_LETTER_ORDER[i] == ETAOIN[25 - i];
    }
    forall c ensures c in NO_LETTER_ORDER <==> IsLetter(c) {
      if IsLetter(c) {
        assert NO_LETTER_ORDER[25 - EtaoinIndex(c)] == c;
      }
      if c in NO_LETTER_ORDER {
        var k :| 0 <= k < 26 && NO_LETTER_ORDER[k] == c;
        assert ETAOIN[25 - k] in ETAOIN;
      }
    }
  }

  /** In a text without letters every count is zero. */
  lemma NoLetterCounts(message: string)
    requires LetterTotal(message) == 0
    ensures forall c :: CountOf(Histogram(message), c) == 0
  {
    var hist := Histogram(message);
    LettersFacts();
    forall c ensures CountOf(hist, c) == 0 {
      if c in LETTERS {
        CountsAddUpToLetters(message);
        TotalAtLeastOne(hist, LETTERS, c);
      }
    }
  }

  /** A text without letters is ordered in reverse ETAOIN order. */
  lemma NoLetterOrder(message: string)
    requires LetterTotal(message) == 0
    ensures FrequencyOrder(Histogram(message)) == NO_LETTER_ORDER
  {
    var hist := Histogram(message);
    NoLetterCounts(message);
    NoLetterOrderFacts();
    assert StrictlyDown(NO_LETTER_ORDER, RankOf(hist)) by {
      forall i, j | 0 <= i < j < |NO_LETTER_ORDER|
        ensures RankOf(hist)(NO_LETTER_ORDER[i]) > RankOf(hist)(NO_LETTER_ORDER[j])
      {
        assert EtaoinIndex(NO_LETTER_ORDER[i]) > EtaoinIndex(NO_LETTER_ORDER[j]);
      }
    }
    FrequencyOrderStrict(hist);
    StrictlyDownUnique(FrequencyOrder(hist), NO_LETTER_ORDER, RankOf(hist));
  }

  /** A letter among those totalled contributes its count to the total. */
  lemma {:induction false} TotalAtLeastOne(hist: map<char, nat>, letters: string, c: char)
    requires c in letters
    ensures Total(hist, letters) >= CountOf(hist, c)
  {
    if letters[0] != c {
      TotalAtLeastOne(hist, letters[1..], c);
    }
  }

  /** The letters of the given list whose count is f, in their order there. */
  function Group(hist: map<char, nat>, letters: string, f: nat): (g: string)
    ensures forall c :: c in g <==> c in letters && CountOf(hist, c) == f
  {
    if letters == [] then []
    else
      var init := letters[..|letters| - 1];
      var last := letters[|letters| - 1];
      assert forall c :: c in letters <==> c in init || c == last by {
        assert letters == init + [last];
      }
      Group(hist, init, f) + (if CountOf(hist, last) == f then [last] else [])
  }

  lemma {:induction false} GroupNoDuplicates(hist: map<char, nat>, letters: string, f: nat)
    requires NoDuplicates(letters)
    ensures NoDuplicates(Group(hist, letters, f))
  {
    if letters != [] {
      var init := letters[..|letters| - 1];
      GroupNoDuplicates(hist, init, f);
      assert letters[|letters| - 1] !in init;
    }
  }

  /** A group after step three of get_frequeny_order: the letters of count f in reverse ETAOIN order. */
  function SortedGroup(hist: map<char, nat>, f: nat): string {
    SortDescending(Group(hist, LETTERS, f), EtaoinIndex)
  }

  /** The letters of a sorted group all have count f and go strictly down in rank. */
  lemma SortedGroupFacts(hist: map<char, nat>, f: nat)
    ensures forall c :: c in SortedGroup(hist, f) <==> IsLetter(c) && CountOf(hist, c) == f
    ensures StrictlyDown(SortedGroup(hist, f), RankOf(hist))
  {
    SortedGroupMembers(hist, f);
    SortedGroupInEtaoinOrder(hist, f);
    SameCountRank(hist, f, SortedGroup(hist, f));
  }

  /** Sorting a group keeps its letters: those with count f. */
  lemma SortedGroupMembers(hist: map<char, nat>, f: nat)
    ensures forall c :: c in SortedGroup(hist, f) <==> IsLetter(c) && CountOf(hist, c) == f
  {
    var g := Group(hist, LETTERS, f);
    var s := SortedGroup(hist, f);
    assert multiset(s) == multiset(g);
    LettersFacts();
    forall c ensures c in s <==> c in g {
      assert c in s <==> c in multiset(s);
      assert c in g <==> c in multiset(g);
    }
  }

  /** A sorted group is in strictly falling ETAOIN position. */
  lemma SortedGroupInEtaoinOrder(hist: map<char, nat>, f: nat)
    ensures StrictlyDown(SortedGroup(hist, f), EtaoinIndex)
  {
    var g := Group(hist, LETTERS, f);
    GroupNoDuplicates(hist, LETTERS, f);
    LettersFacts();
    EtaoinIndexFacts();
    forall i, j | 0 <= i < j < |g| ensures EtaoinIndex(g[i]) != EtaoinIndex(g[j]) {
      assert g[i] in g && g[j] in g;
      assert g[i] != g[j];
    }
    assert DistinctKeys(g, EtaoinIndex);
  }

  /** Among letters that share one count, rank order is ETAOIN order. */
  lemma SameCountRank(hist: map<char, nat>, f: nat, s: string)
    requires forall c :: c in s ==> CountOf(hist, c) == f
    requires StrictlyDown(s, EtaoinIndex)
    ensures StrictlyDown(s, RankOf(hist))
  {
    forall i, j | 0 <= i < j < |s| ensures RankOf(hist)(s[i]) > RankOf(hist)(s[j]) {
      assert CountOf(hist, s[i]) == f && CountOf(hist, s[j]) == f;
      assert EtaoinIndex(s[i]) > EtaoinIndex(s[j]);
    }
  }

  /** `get_item_idx_zero`: the count of a (count, letters) pair. */
  function PairCount(p: (nat, string)): int {
    p.0
  }

  /** The counts of the pairs, in order. */
  function Firsts(pairs: seq<(nat, string)>): seq<nat> {
    seq(|pairs|, k requires 0 <= k < |pairs| => pairs[k].0)
  }

  lemma FirstsMember(pairs: seq<(nat, string)>, k: nat)
    requires k < |pairs|
    ensures pairs[k].0 in Firsts(pairs)
  {
    assert Firsts(pairs)[k] == pairs[k].0;
  }

  /** The letter strings of the pairs, in order. */
  function Seconds(pairs: seq<(nat, string)>): seq<string> {
    seq(|pairs|, k requires 0 <= k < |pairs| => pairs[k].1)
  }

  lemma SecondsSnoc(pairs: seq<(nat, string)>, k: nat)
    requires k < |pairs|
    ensures Seconds(pairs[..k + 1]) == Seconds(pairs[..k]) + [pairs[k].1]
  {
  }

  lemma PairsUnfold(pairs: seq<(nat, string)>)
    requires pairs != []
    ensures Seconds(pairs) == [pairs[0].1] + Seconds(pairs[1..])
    ensures Firsts(pairs) == [pairs[0].0] + Firsts(pairs[1..])
  {
  }

  /** Whether a pair holds a count with its sorted group. */
  predicate IsCountGroup(hist: map<char, nat>, p: (nat, string)) {
    p.1 == SortedGroup(hist, p.0)
  }

  /**
   * Joining groups whose counts go strictly down gives letters of strictly
   * decreasing rank: exactly the letters whose count is one of the pairs'.
   */
  lemma {:induction false} JoinedGroups(hist: map<char, nat>, pairs: seq<(nat, string)>)
    requires forall k :: 0 <= k < |pairs| ==> IsCountGroup(hist, pairs[k])
    requires StrictlyDown(pairs, PairCount)
    ensures StrictlyDown(Concat(Seconds(pairs)), RankOf(hist))
    ensures forall c :: c in Concat(Seconds(pairs)) <==> IsLetter(c) && CountOf(hist, c) in Firsts(pairs)
  {
    if pairs == [] {
      assert Seconds(pairs) == [];
    } else {
      var head, rest := pairs[0], pairs[1..];
      JoinedGroups(hist, rest);
      SortedGroupFacts(hist, head.0);
      EtaoinIndexFacts();
      PairsUnfold(pairs);
      var a, b := head.1, Concat(Seconds(rest));
      assert Concat(Seconds(pairs)) == a + b;
      GroupAboveRest(hist, pairs);
      StrictlyDownAppend(a, b, RankOf(hist));
      assert forall f :: f in Firsts(pairs) <==> f == head.0 || f in Firsts(rest);
    }
  }

  /** Every letter of the first group outranks every letter of the groups after it. */
  lemma GroupAboveRest(hist: map<char, nat>, pairs: seq<(nat, string)>)
    requires pairs != [] && IsCountGroup(hist, pairs[0])
    requires StrictlyDown(pairs, PairCount)
    requires forall c :: c in Concat(Seconds(pairs[1..])) ==> IsLetter(c) && CountOf(hist, c) in Firsts(pairs[1..])
    ensures forall x, y :: x in pairs[0].1 && y in Concat(Seconds(pairs[1..])) ==> RankOf(hist)(x) > RankOf(hist)(y)
  {
    var rest := pairs[1..];
    SortedGroupFacts(hist, pairs[0].0);
    forall x, y | x in pairs[0].1 && y in Concat(Seconds(rest)) ensures RankOf(hist)(x) > RankOf(hist)(y) {
      var k :| 0 <= k < |rest| && Firsts(rest)[k] == CountOf(hist, y);
      assert pairs[k + 1] == rest[k];
      assert PairCount(pairs[0]) > PairCount(pairs[k + 1]);
      HigherCountOutranks(hist, x, y);
    }
  }

  /** A letter with a larger count has a larger rank, whatever their ETAOIN positions. */
  lemma HigherCountOutranks(hist: map<char, nat>, c: char, d: char)
    requires IsLetter(c) && IsLetter(d) && CountOf(hist, c) > CountOf(hist, d)
    ensures Rank(hist, c) > Rank(hist, d)
  {
    EtaoinIndexFacts();
    RankParts(CountOf(hist, c), CountOf(hist, d), EtaoinIndex(c), EtaoinIndex(d));
  }

  /**
   * get_frequeny_order: group the letters by count (counts in first-seen
   * order), put each group in reverse ETAOIN order, sort the (count, group)
   * pairs by count from the largest, and join the groups.
   */
  method GetFrequencyOrder(message: string) returns (order: string)
    requires IsAscii(message)
    ensures order == FrequencyOrder(Histogram(message))
  {
    var letterToFreq := GetLetterCount(message);
    var freqToLetter, freqs := GroupByCount(letterToFreq);
    freqToLetter := SortGroups(letterToFreq, freqToLetter, freqs);

    // Step four: the (count, group) pairs, largest count first.
    var freqPairs := seq(|freqs|, k requires 0 <= k < |freqs| => (freqs[k], freqToLetter[freqs[k]]));
    ghost var unsorted := freqPairs;
    freqPairs := SortDescending(freqPairs, PairCount);

    order := JoinGroups(freqPairs);
    StepsMakeFrequencyOrder(letterToFreq, freqToLetter, freqs, unsorted, freqPairs);
  }

  /** The five steps of get_frequeny_order together yield the frequency order. */
  lemma StepsMakeFrequencyOrder(hist: map<char, nat>, freqToLetter: map<nat, string>, freqs: seq<nat>,
                                unsorted: seq<(nat, string)>, pairs: seq<(nat, string)>)
    requires forall f :: f in freqToLetter <==> f in freqs
    requires NoDuplicates(freqs)
    requires forall f :: f in freqToLetter ==> freqToLetter[f] == SortedGroup(hist, f)
    requires forall c :: IsLetter(c) ==> CountOf(hist, c) in freqs
    requires unsorted == seq(|freqs|, k requires 0 <= k < |freqs| => (freqs[k], freqToLetter[freqs[k]]))
    requires pairs == SortDescending(unsorted, PairCount)
    ensures Concat(Seconds(pairs)) == FrequencyOrder(hist)
  {
    assert forall k :: 0 <= k < |freqs| ==> unsorted[k] == (freqs[k], SortedGroup(hist, freqs[k])) by {
      forall k | 0 <= k < |freqs| ensures unsorted[k] == (freqs[k], SortedGroup(hist, freqs[k])) {
        assert freqs[k] in freqToLetter;
      }
    }
    PairsFacts(hist, freqs, unsorted, pairs);
    JoinedPairsAreFrequencyOrder(hist, pairs);
  }

  /**
   * Step two of get_frequeny_order: each count with the letters that have it,
   * in alphabetical order; the counts listed in the order first met. Since the
   * letters are visited alphabetically, a count is first met at the first
   * letter of its group.
   */
  method GroupByCount(letterToFreq: map<char, nat>) returns (freqToLetter: map<nat, string>, freqs: seq<nat>)
    requires forall c :: c in letterToFreq <==> IsLetter(c)
    ensures forall f :: f in freqToLetter <==> f in freqs
    ensures NoDuplicates(freqs)
    ensures forall f :: f in freqToLetter ==> freqToLetter[f] == Group(letterToFreq, LETTERS, f)
    ensures forall c :: IsLetter(c) ==> CountOf(letterToFreq, c) in freqs
    ensures forall f :: f in freqToLetter ==> freqToLetter[f] != []
    ensures forall a, b :: 0 <= a < b < |freqs| ==> freqToLetter[freqs[a]][0] < freqToLetter[freqs[b]][0]
  {
    freqToLetter, freqs := map[], [];
    for i := 0 to |LETTERS|
      invariant Grouped(letterToFreq, LETTERS[..i], freqToLetter, freqs)
    {
      var letter := LETTERS[i];
      assert IsLetter(letter);
      var freq := letterToFreq[letter];
      assert freq == CountOf(letterToFreq, letter);
      GroupedStep(letterToFreq, i, freqToLetter, freqs);
      if freq !in freqToLetter {
        freqToLetter := freqToLetter[freq := [letter]];
        freqs := freqs + [freq];
      } else {
        freqToLetter := freqToLetter[freq := freqToLetter[freq] + [letter]];
      }
    }
    assert LETTERS[..|LETTERS|] == LETTERS;
    GroupedAllLetters(letterToFreq, freqToLetter, freqs);
  }

  /**
   * groups and freqs are what step two has built after visiting the letters
   * of seen: each count met with its letters, the counts listed once each in
   * the order first met.
   */
  ghost predicate Grouped(hist: map<char, nat>, seen: string, groups: map<nat, string>, freqs: seq<nat>) {
    && (forall f :: f in groups <==> f in freqs)
    && NoDuplicates(freqs)
    && (forall f :: f in groups ==> groups[f] == Group(hist, seen, f))
    && (forall c :: c in seen ==> CountOf(hist, c) in groups)
    && ListedByFirstLetter(groups, freqs)
  }

  /** A count ranks higher the earlier the first letter of its group comes in the alphabet. */
  function FirstLetterRank(hist: map<char, nat>): nat -> int {
    (f: nat) => var g := Group(hist, LETTERS, f); if g == [] then 0 else -(g[0] as int)
  }

  /**
   * The contract of GroupByCount leaves no choice: two results that meet it
   * are the same dictionary and the same list of counts.
   */
  lemma GroupByCountUnique(hist: map<char, nat>, groups1: map<nat, string>, freqs1: seq<nat>,
                           groups2: map<nat, string>, freqs2: seq<nat>)
    requires forall f :: f in groups1 <==> f in freqs1
    requires forall f :: f in groups1 ==> groups1[f] == Group(hist, LETTERS, f) && groups1[f] != []
    requires forall c :: IsLetter(c) ==> CountOf(hist, c) in freqs1
    requires forall a, b :: 0 <= a < b < |freqs1| ==> groups1[freqs1[a]][0] < groups1[freqs1[b]][0]
    requires forall f :: f in groups2 <==> f in freqs2
    requires forall f :: f in groups2 ==> groups2[f] == Group(hist, LETTERS, f) && groups2[f] != []
    requires forall c :: IsLetter(c) ==> CountOf(hist, c) in freqs2
    requires forall a, b :: 0 <= a < b < |freqs2| ==> groups2[freqs2[a]][0] < groups2[freqs2[b]][0]
    ensures groups1 == groups2 && freqs1 == freqs2
  {
    assert forall f :: f in freqs1 <==> f in freqs2 by {
      CountsThatOccur(hist, groups1, freqs1);
      CountsThatOccur(hist, groups2, freqs2);
    }
    assert groups1 == groups2 by {
      SameGroups(hist, groups1, groups2);
    }
    assert freqs1 == freqs2 by {
      RankedByFirstLetter(hist, groups1, freqs1);
      RankedByFirstLetter(hist, groups2, freqs2);
      StrictlyDownUnique(freqs1, freqs2, FirstLetterRank(hist));
    }
  }

  /** Two dictionaries with the same keys, each mapping a count to its group, are equal. */
  lemma SameGroups(hist: map<char, nat>, groups1: map<nat, string>, groups2: map<nat, string>)
    requires forall f :: f in groups1 <==> f in groups2
    requires forall f :: f in groups1 ==> groups1[f] == Group(hist, LETTERS, f)
    requires forall f :: f in groups2 ==> groups2[f] == Group(hist, LETTERS, f)
    ensures groups1 == groups2
  {
  }

  /** The counts listed are exactly those some letter has. */
  lemma CountsThatOccur(hist: map<char, nat>, groups: map<nat, string>, freqs: seq<nat>)
    requires forall f :: f in groups <==> f in freqs
    requires forall f :: f in groups ==> groups[f] == Group(hist, LETTERS, f) && groups[f] != []
    requires forall c :: IsLetter(c) ==> CountOf(hist, c) in freqs
    ensures forall f :: f in freqs <==> Group(hist, LETTERS, f) != []
  {
    LettersFacts();
    forall f | Group(hist, LETTERS, f) != [] ensures f in freqs {
      var c := Group(hist, LETTERS, f)[0];
      assert c in LETTERS && CountOf(hist, c) == f;
    }
  }

  /** Counts listed by the first letters of their groups fall strictly in FirstLetterRank. */
  lemma RankedByFirstLetter(hist: map<char, nat>, groups: map<nat, string>, freqs: seq<nat>)
    requires forall f :: f in groups <==> f in freqs
    requires forall f :: f in groups ==> groups[f] == Group(hist, LETTERS, f) && groups[f] != []
    requires forall a, b :: 0 <= a < b < |freqs| ==> groups[freqs[a]][0] < groups[freqs[b]][0]
    ensures StrictlyDown(freqs, FirstLetterRank(hist))
  {
    var rank := FirstLetterRank(hist);
    forall a, b | 0 <= a < b < |freqs| ensures rank(freqs[a]) > rank(freqs[b]) {
      assert freqs[a] in groups && freqs[b] in groups;
    }
  }

  /** After all of LETTERS: the groups and counts step two promises. */
  lemma GroupedAllLetters(hist: map<char, nat>, groups: map<nat, string>, freqs: seq<nat>)
    requires Grouped(hist, LETTERS, groups, freqs)
    ensures forall f :: f in groups <==> f in freqs
    ensures NoDuplicates(freqs)
    ensures forall f :: f in groups ==> groups[f] == Group(hist, LETTERS, f)
    ensures forall c :: IsLetter(c) ==> CountOf(hist, c) in freqs
    ensures forall f :: f in groups ==> groups[f] != []
    ensures forall a, b :: 0 <= a < b < |freqs| ==> groups[freqs[a]][0] < groups[freqs[b]][0]
  {
    LettersFacts();
  }

  /** Iteration i of step two, which visits letter i of LETTERS. */
  lemma GroupedStep(hist: map<char, nat>, i: nat, groups: map<nat, string>, freqs: seq<nat>)
    requires i < |LETTERS|
    requires Grouped(hist, LETTERS[..i], groups, freqs)
    ensures CountOf(hist, LETTERS[i]) in groups ==>
      Grouped(hist, LETTERS[..i + 1], groups[CountOf(hist, LETTERS[i]) := groups[CountOf(hist, LETTERS[i])] + [LETTERS[i]]], freqs)
    ensures CountOf(hist, LETTERS[i]) !in groups ==>
      Grouped(hist, LETTERS[..i + 1], groups[CountOf(hist, LETTERS[i]) := [LETTERS[i]]], freqs + [CountOf(hist, LETTERS[i])])
  {
    var seen, letter := LETTERS[..i], LETTERS[i];
    assert LETTERS[..i + 1] == seen + [letter];
    EarlierLettersSmaller(i);
    GroupedAppend(hist, seen, letter, groups, freqs);
  }

  /** Grouping one more letter, later in the alphabet than every letter seen. */
  lemma GroupedAppend(hist: map<char, nat>, seen: string, letter: char, groups: map<nat, string>, freqs: seq<nat>)
    requires Grouped(hist, seen, groups, freqs)
    requires forall c :: c in seen ==> c < letter
    ensures CountOf(hist, letter) in groups ==>
      Grouped(hist, seen + [letter], groups[CountOf(hist, letter) := groups[CountOf(hist, letter)] + [letter]], freqs)
    ensures CountOf(hist, letter) !in groups ==>
      Grouped(hist, seen + [letter], groups[CountOf(hist, letter) := [letter]], freqs + [CountOf(hist, letter)])
  {
    var freq := CountOf(hist, letter);
    GroupingStep(hist, seen, letter, groups);
    FirstLetterStep(hist, seen, letter, groups, freqs);
    if freq in groups {
      var next := groups[freq := groups[freq] + [letter]];
      assert forall f :: f in next <==> f in freqs;
    } else {
      var next := groups[freq := [letter]];
      var nextFreqs := freqs + [freq];
      assert forall f :: f in next <==> f in nextFreqs;
      assert NoDuplicates(nextFreqs) by {
        assert freq !in freqs;
      }
    }
  }

  /** No group is empty, and the counts are listed in the order of their groups' first letters. */
  predicate ListedByFirstLetter(groups: map<nat, string>, freqs: seq<nat>) {
    && (forall f :: f in groups ==> groups[f] != [])
    && (forall a, b :: 0 <= a < b < |freqs| ==>
          freqs[a] in groups && freqs[b] in groups && groups[freqs[a]][0] < groups[freqs[b]][0])
  }

  /**
   * Grouping one more letter, later in the alphabet than every letter seen,
   * keeps the counts listed by their groups' first letters: an existing group
   * keeps its first letter, and a new count goes last with the new letter.
   */
  lemma FirstLetterStep(hist: map<char, nat>, seen: string, letter: char, groups: map<nat, string>, freqs: seq<nat>)
    requires forall f :: f in groups <==> f in freqs
    requires forall f :: f in groups ==> groups[f] == Group(hist, seen, f)
    requires forall c :: c in seen ==> c < letter
    requires ListedByFirstLetter(groups, freqs)
    ensures var freq := CountOf(hist, letter);
      if freq in groups then ListedByFirstLetter(groups[freq := groups[freq] + [letter]], freqs)
      else ListedByFirstLetter(groups[freq := [letter]], freqs + [freq])
  {
    var freq := CountOf(hist, letter);
    if freq in groups {
      var next := groups[freq := groups[freq] + [letter]];
      assert forall f :: f in next ==> next[f][0] == groups[f][0];
    } else {
      var next := groups[freq := [letter]];
      var nextFreqs := freqs + [freq];
      forall a, b | 0 <= a < b < |nextFreqs|
        ensures nextFreqs[a] in next && nextFreqs[b] in next && next[nextFreqs[a]][0] < next[nextFreqs[b]][0]
      {
        if b == |freqs| {
          assert groups[freqs[a]][0] in Group(hist, seen, freqs[a]);
        }
      }
    }
  }

  /** The letters before position i of LETTERS all come before its letter i. */
  lemma EarlierLettersSmaller(i: nat)
    requires i < |LETTERS|
    ensures forall c :: c in LETTERS[..i] ==> c < LETTERS[i]
  {
    forall c | c in LETTERS[..i] ensures c < LETTERS[i] {
      var m :| 0 <= m < i && LETTERS[m] == c;
    }
  }

  /** Step three of get_frequeny_order: every group in reverse ETAOIN order. */
  method SortGroups(ghost hist: map<char, nat>, groups: map<nat, string>, freqs: seq<nat>)
    returns (freqToLetter: map<nat, string>)
    requires forall f :: f in groups <==> f in freqs
    requires NoDuplicates(freqs)
    requires forall f :: f in groups ==> groups[f] == Group(hist, LETTERS, f)
    ensures forall f :: f in freqToLetter <==> f in freqs
    ensures forall f :: f in freqToLetter ==> freqToLetter[f] == SortedGroup(hist, f)
  {
    ghost var target := map f | f in groups :: SortedGroup(hist, f);
    freqToLetter := groups;
    for j := 0 to |freqs|
      invariant SortedUpTo(groups, target, freqs, freqToLetter, j)
    {
      var freq := freqs[j];
      SortGroupsStep(groups, target, freqs, freqToLetter, j);
      freqToLetter := freqToLetter[freq := SortDescending(freqToLetter[freq], EtaoinIndex)];
    }
    SortedAll(groups, target, freqs, freqToLetter);
  }

  /**
   * Step three has replaced the groups of the first j counts by their target
   * and left the others as built.
   */
  ghost predicate SortedUpTo(groups: map<nat, string>, target: map<nat, string>, freqs: seq<nat>,
                             sorted: map<nat, string>, j: nat) {
    && j <= |freqs|
    && (forall f :: f in sorted <==> f in freqs)
    && (forall f :: f in groups <==> f in freqs)
    && (forall f :: f in target <==> f in freqs)
    && (forall m :: 0 <= m < j ==> sorted[freqs[m]] == target[freqs[m]])
    && (forall m :: j <= m < |freqs| ==> sorted[freqs[m]] == groups[freqs[m]])
  }

  /** Replacing the group of count j leaves every other group as it was. */
  lemma SortGroupsStep(groups: map<nat, string>, target: map<nat, string>, freqs: seq<nat>, sorted: map<nat, string>, j: nat)
    requires NoDuplicates(freqs) && j < |freqs|
    requires SortedUpTo(groups, target, freqs, sorted, j)
    ensures freqs[j] in sorted && sorted[freqs[j]] == groups[freqs[j]]
    ensures SortedUpTo(groups, target, freqs, sorted[freqs[j] := target[freqs[j]]], j + 1)
  {
    UpdateOneKey(sorted, freqs, j, target[freqs[j]]);
  }

  /** Once every count is done, every entry is its target. */
  lemma SortedAll(groups: map<nat, string>, target: map<nat, string>, freqs: seq<nat>, sorted: map<nat, string>)
    requires SortedUpTo(groups, target, freqs, sorted, |freqs|)
    ensures forall f :: f in sorted <==> f in freqs
    ensures forall f :: f in sorted ==> sorted[f] == target[f]
  {
    forall f | f in sorted ensures sorted[f] == target[f] {
      var m :| 0 <= m < |freqs| && freqs[m] == f;
    }
  }

  /** Updating the entry of key j leaves the entries of the other listed keys as they were. */
  lemma UpdateOneKey<V>(m: map<nat, V>, keys: seq<nat>, j: nat, v: V)
    requires NoDuplicates(keys) && j < |keys|
    requires forall f :: f in m <==> f in keys
    ensures forall f :: f in m[keys[j] := v] <==> f in keys
    ensures m[keys[j] := v][keys[j]] == v
    ensures forall i :: 0 <= i < |keys| && i != j ==> m[keys[j] := v][keys[i]] == m[keys[i]]
  {
    forall i | 0 <= i < |keys| && i != j ensures m[keys[j] := v][keys[i]] == m[keys[i]] {
      assert keys[i] != keys[j];
    }
  }


  /** Step five of get_frequeny_order: the letter strings of the pairs, one after another. */
  method JoinGroups(freqPairs: seq<(nat, string)>) returns (joined: string)
    ensures joined == Concat(Seconds(freqPairs))
  {
    var freqOrder: seq<string> := [];
    for k := 0 to |freqPairs|
      invariant freqOrder == Seconds(freqPairs[..k])
    {
      SecondsSnoc(freqPairs, k);
      freqOrder := freqOrder + [freqPairs[k].1];
    }
    assert freqPairs[..|freqPairs|] == freqPairs;
    joined := Concat(freqOrder);
  }

  /**
   * One step of the grouping loop: appending the next letter to its count's
   * list (or starting the list) keeps every list equal to the group of its
   * count among the letters seen so far.
   */
  lemma GroupingStep(hist: map<char, nat>, seen: string, letter: char, freqToLetter: map<nat, string>)
    requires forall f :: f in freqToLetter ==> freqToLetter[f] == Group(hist, seen, f)
    requires forall c :: c in seen ==> CountOf(hist, c) in freqToLetter
    ensures var freq := CountOf(hist, letter);
      var next := if freq in freqToLetter then freqToLetter[freq := freqToLetter[freq] + [letter]]
                  else freqToLetter[freq := [letter]];
      && (forall f :: f in next ==> next[f] == Group(hist, seen + [letter], f))
      && (forall c :: c in seen + [letter] ==> CountOf(hist, c) in next)
  {
    var letters := seen + [letter];
    assert letters[..|letters| - 1] == seen;
    var freq := CountOf(hist, letter);
    if freq !in freqToLetter {
      GroupEmpty(hist, seen, freq);
    }
  }

  /** No letter of the list has count f: its group is empty. */
  lemma GroupEmpty(hist: map<char, nat>, letters: string, f: nat)
    requires forall c :: c in letters ==> CountOf(hist, c) != f
    ensures Group(hist, letters, f) == []
  {
    var g := Group(hist, letters, f);
    assert forall k :: 0 <= k < |g| ==> g[k] in g;
  }

  /**
   * The pairs after step four: each holds a count with its sorted group,
   * their counts go strictly down, and every letter's count is among them.
   */
  lemma PairsFacts(hist: map<char, nat>, freqs: seq<nat>, unsorted: seq<(nat, string)>, pairs: seq<(nat, string)>)
    requires NoDuplicates(freqs)
    requires forall c :: IsLetter(c) ==> CountOf(hist, c) in freqs
    requires |unsorted| == |freqs|
    requires forall k :: 0 <= k < |freqs| ==> unsorted[k] == (freqs[k], SortedGroup(hist, freqs[k]))
    requires pairs == SortDescending(unsorted, PairCount)
    ensures forall k :: 0 <= k < |pairs| ==> IsCountGroup(hist, pairs[k])
    ensures StrictlyDown(pairs, PairCount)
    ensures forall c :: IsLetter(c) ==> CountOf(hist, c) in Firsts(pairs)
  {
    assert DistinctKeys(unsorted, PairCount) by {
      forall i, j | 0 <= i < j < |unsorted| ensures PairCount(unsorted[i]) != PairCount(unsorted[j]) {
        assert unsorted[i].0 == freqs[i] && unsorted[j].0 == freqs[j];
      }
    }
    SortedPairsAreGroups(hist, unsorted, pairs);
    SortedPairsCover(hist, freqs, unsorted, pairs);
  }

  lemma SortedPairsAreGroups(hist: map<char, nat>, unsorted: seq<(nat, string)>, pairs: seq<(nat, string)>)
    requires forall k :: 0 <= k < |unsorted| ==> IsCountGroup(hist, unsorted[k])
    requires multiset(pairs) == multiset(unsorted)
    ensures forall k :: 0 <= k < |pairs| ==> IsCountGroup(hist, pairs[k])
  {
    forall k | 0 <= k < |pairs| ensures IsCountGroup(hist, pairs[k]) {
      assert pairs[k] in multiset(unsorted);
    }
  }

  lemma SortedPairsCover(hist: map<char, nat>, freqs: seq<nat>, unsorted: seq<(nat, string)>, pairs: seq<(nat, string)>)
    requires forall c :: IsLetter(c) ==> CountOf(hist, c) in freqs
    requires |unsorted| == |freqs|
    requires forall k :: 0 <= k < |freqs| ==> unsorted[k].0 == freqs[k]
    requires multiset(pairs) == multiset(unsorted)
    ensures forall c :: IsLetter(c) ==> CountOf(hist, c) in Firsts(pairs)
  {
    forall c | IsLetter(c) ensures CountOf(hist, c) in Firsts(pairs) {
      var m :| 0 <= m < |freqs| && freqs[m] == CountOf(hist, c);
      assert unsorted[m] in multiset(pairs);
      var k :| 0 <= k < |pairs| && pairs[k] == unsorted[m];
      FirstsMember(pairs, k);
    }
  }

  /** Joining the groups of the sorted pairs gives the frequency order. */
  lemma JoinedPairsAreFrequencyOrder(hist: map<char, nat>, pairs: seq<(nat, string)>)
    requires forall k :: 0 <= k < |pairs| ==> IsCountGroup(hist, pairs[k])
    requires StrictlyDown(pairs, PairCount)
    requires forall c :: IsLetter(c) ==> CountOf(hist, c) in Firsts(pairs)
    ensures Concat(Seconds(pairs)) == FrequencyOrder(hist)
  {
    JoinedGroups(hist, pairs);
    FrequencyOrderStrict(hist);
    StrictlyDownUnique(Concat(Seconds(pairs)), FrequencyOrder(hist), RankOf(hist));
  }

  /** How many of the wanted letters occur in the pool. */
  function CountIn(wanted: string, pool: string): (n: nat)
    ensures n <= |wanted|
    ensures n == |wanted| <==> forall k :: 0 <= k < |wanted| ==> wanted[k] in pool
  {
    if wanted == [] then 0
    else
      var init := wanted[..|wanted| - 1];
      assert forall k :: 0 <= k < |init| ==> init[k] == wanted[k];
      CountIn(init, pool) + (if wanted[|wanted| - 1] in pool then 1 else 0)
  }

  /**
   * The score of a frequency order: how many of ETAOIN's first six letters
   * are among its first six, plus how many of ETAOIN's last six are among
   * its last six.
   */
  function MatchScore(order: string): (score: nat)
    requires |order| >= 6
  {
    CountIn(ETAOIN[..6], order[..6]) + CountIn(ETAOIN[|ETAOIN| - 6..], order[|order| - 6..])
  }

  /** The score is at most 12, reached exactly when both sixes agree with English. */
  lemma MatchScoreRange(order: string)
    requires |order| >= 6
    ensures MatchScore(order) <= 12
    ensures MatchScore(order) == 12 <==>
      (forall k :: 0 <= k < 6 ==> ETAOIN[k] in order[..6])
      && (forall k :: 20 <= k < 26 ==> ETAOIN[k] in order[|order| - 6..])
  {
    var top, bottom := ETAOIN[..6], ETAOIN[|ETAOIN| - 6..];
    assert forall k :: 20 <= k < 26 ==> ETAOIN[k] == bottom[k - 20];
  }

  /** The English order itself scores the full 12. */
  lemma EnglishOrderScoresTwelve()
    ensures MatchScore(ETAOIN) == 12
  {
    MatchScoreRange(ETAOIN);
    assert forall k :: 0 <= k < 6 ==> ETAOIN[k] in ETAOIN[..6];
    assert forall k :: 20 <= k < 26 ==> ETAOIN[k] in ETAOIN[20..];
  }

  /** The order of a text without letters scores 0: its ends hold the other end of ETAOIN. */
  lemma NoLetterOrderScoresZero()
    ensures MatchScore(NO_LETTER_ORDER) == 0
  {
    var top, bottom := ETAOIN[..6], ETAOIN[20..];
    assert top == "ETAOIN" && bottom == "VKJXQZ";
    assert NO_LETTER_ORDER[..6] == "ZQXJKV" && NO_LETTER_ORDER[20..] == "NIOATE";
    CountInNone(top, "ZQXJKV");
    CountInNone(bottom, "NIOATE");
  }

  /** Counting one more wanted letter adds one if it is in the pool. */
  lemma CountInStep(wanted: string, pool: string, i: nat)
    requires i < |wanted|
    ensures CountIn(wanted[..i + 1], pool) == CountIn(wanted[..i], pool) + (if wanted[i] in pool then 1 else 0)
  {
    assert wanted[..i + 1][..i] == wanted[..i];
  }

  lemma {:induction false} CountInNone(wanted: string, pool: string)
    requires forall k :: 0 <= k < |wanted| ==> wanted[k] !in pool
    ensures CountIn(wanted, pool) == 0
  {
    if wanted != [] {
      CountInNone(wanted[..|wanted| - 1], pool);
    }
  }

  /** What english_freq_match_score returns for a text. */
  function Score(message: string): (score: nat) {
    FrequencyOrderMeaning(Histogram(message));
    MatchScore(FrequencyOrder(Histogram(message)))
  }

  /** One of the two loops of english_freq_match_score: a point for each wanted letter found in the pool. */
  method CountAmong(wanted: string, pool: string) returns (points: nat)
    ensures points == CountIn(wanted, pool)
  {
    points := 0;
    for i := 0 to |wanted|
      invariant points == CountIn(wanted[..i], pool)
    {
      CountInStep(wanted, pool, i);
      if wanted[i] in pool {
        points := points + 1;
      }
    }
    assert wanted[..|wanted|] == wanted;
  }

  /**
   * english_freq_match_score: one point for each of ETAOIN's first six letters
   * among the text's six most frequent, one for each of ETAOIN's last six
   * among its six least frequent.
   */
  method EnglishFreqMatchScore(message: string) returns (matchScore: nat)
    requires IsAscii(message)
    ensures matchScore == Score(message)
    ensures matchScore <= 12
  {
    var freqOrder := GetFrequencyOrder(message);
    assert |freqOrder| == 26 by {
      FrequencyOrderMeaning(Histogram(message));
    }
    var topPoints := CountAmong(ETAOIN[..6], freqOrder[..6]);
    var bottomPoints := CountAmong(ETAOIN[|ETAOIN| - 6..], freqOrder[|freqOrder| - 6..]);
    matchScore := topPoints + bottomPoints;
    assert matchScore == MatchScore(freqOrder) <= 12 by {
      MatchScoreRange(freqOrder);
    }
  }

  /** A text without letters orders the alphabet in reverse ETAOIN order and scores 0. */
  lemma NoLetterScore(message: string)
    requires LetterTotal(message) == 0
    ensures Score(message) == 0
  {
    NoLetterOrder(message);
    NoLetterOrderScoresZero();
  }

  /** The score ignores case and characters that are not letters. */
  lemma ScoreIgnoresCaseAndNonLetters(before: string, c: char, after: string)
    requires !IsLetter(Upper(c))
    ensures Score(before + [c] + after) == Score(before + after)
    ensures Score(UpperText(before)) == Score(before)
  {
    HistogramIgnoresNonLetter(before, c, after);
    HistogramIgnoresCase(UpperText(before), before);
  }
}
