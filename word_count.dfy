/** The word-count list of the word-frequency exercise: a list of (word,
    count) entries that add_word extends at the front or increments in
    place, searched front to back, sorted with a caller's comparison and
    printed one line per entry. The list is modelled as the sequence of its
    entries in list order; a pointer to an entry is its index. The mutex
    that guards the list is not modelled: every operation is sequential. */
module WordCount {
  import opened Wrappers

  /** word_count_t: a word and how often it was added. */
  datatype WordCount = WordCount(word: string, count: int)

  /** The first entry for word, as find_word's front-to-back search finds
      it, or None when no entry has that word. */
  function Find(es: seq<WordCount>, word: string): (r: Option<nat>)
    ensures r.Some? ==> r.value < |es| && es[r.value].word == word
    ensures r.Some? ==> forall j :: 0 <= j < r.value ==> es[j].word != word
    ensures r.None? <==> forall j :: 0 <= j < |es| ==> es[j].word != word
  {
    if es == [] then None
    else if es[0].word == word then Some(0)
    else match Find(es[1..], word)
      case None => None
      case Some(j) => Some(j + 1)
  }

  /** The list add_word leaves behind: the entry for word counted once
      more, or a new entry with count 1 in front of the old list. */
  function Added(es: seq<WordCount>, word: string): seq<WordCount>
  {
    match Find(es, word)
    case Some(j) => es[j := es[j].(count := es[j].count + 1)]
    case None => [WordCount(word, 1)] + es
  }

  /** How often word has been counted: 0 when it has no entry. */
  function CountOf(es: seq<WordCount>, word: string): int
  {
    match Find(es, word)
    case Some(j) => es[j].count
    case None => 0
  }

  /** The invariant the list keeps from init_words on: no word has two
      entries and every count is at least 1. */
  ghost predicate WellFormed(es: seq<WordCount>)
  {
    Distinct(es) && Positive(es)
  }

  /** No word has two entries. */
  ghost predicate Distinct(es: seq<WordCount>)
  {
    forall i, j :: 0 <= i < j < |es| ==> es[i].word != es[j].word
  }

  /** Every count is at least 1. */
  ghost predicate Positive(es: seq<WordCount>)
  {
    forall i :: 0 <= i < |es| ==> es[i].count >= 1
  }

  /** Lists with the same words in the same places search alike. */
  lemma {:induction false} FindSameWords(es: seq<WordCount>, fs: seq<WordCount>, word: string)
    requires |es| == |fs| && forall i :: 0 <= i < |es| ==> es[i].word == fs[i].word
    ensures Find(es, word) == Find(fs, word)
  {
    if es != [] && es[0].word != word {
      FindSameWords(es[1..], fs[1..], word);
    }
  }

  /** Searching below a new front entry for another word finds what the
      old list held, one place further on. */
  lemma FindBehind(e: WordCount, es: seq<WordCount>, word: string)
    requires e.word != word
    ensures Find([e] + es, word) == match Find(es, word) case None => None case Some(j) => Some(j + 1)
  {
    assert ([e] + es)[1..] == es;
  }

  /** add_word keeps the invariant. */
  lemma AddedWellFormed(es: seq<WordCount>, word: string)
    requires WellFormed(es)
    ensures WellFormed(Added(es, word))
  {
    match Find(es, word)
    case Some(j) =>
    case None =>
      var r := [WordCount(word, 1)] + es;
      forall i, k | 0 <= i < k < |r|
        ensures r[i].word != r[k].word
      {
        if i > 0 {
          assert r[i] == es[i - 1] && r[k] == es[k - 1];
        } else {
          assert r[k] == es[k - 1];
        }
      }
  }

  /** add_word on a present word changes that entry's count alone; on an
      absent word it puts a new entry with count 1 in front of the old
      ones. */
  lemma AddedShape(es: seq<WordCount>, word: string)
    ensures Find(es, word).Some? ==>
              var j := Find(es, word).value;
              && |Added(es, word)| == |es|
              && Added(es, word)[j] == WordCount(word, es[j].count + 1)
              && forall k :: 0 <= k < |es| && k != j ==> Added(es, word)[k] == es[k]
    ensures Find(es, word).None? ==>
              && |Added(es, word)| == |es| + 1
              && Added(es, word)[0] == WordCount(word, 1)
              && Added(es, word)[1..] == es
  {
  }

  /** add_word counts word once more. */
  lemma AddedCountSelf(es: seq<WordCount>, word: string)
    ensures CountOf(Added(es, word), word) == CountOf(es, word) + 1
  {
    match Find(es, word)
    case Some(j) =>
      var r := es[j := es[j].(count := es[j].count + 1)];
      assert Added(es, word) == r;
      FindSameWords(r, es, word);
    case None =>
  }

  /** add_word leaves every other word's count alone. */
  lemma AddedCountOther(es: seq<WordCount>, word: string, other: string)
    requires other != word
    ensures CountOf(Added(es, word), other) == CountOf(es, other)
  {
    match Find(es, word)
    case Some(j) =>
      var r := es[j := es[j].(count := es[j].count + 1)];
      assert Added(es, word) == r;
      FindSameWords(r, es, other);
      match Find(es, other) {
        case Some(k) =>
          assert k != j && r[k] == es[k];
        case None =>
      }
    case None =>
      var r := [WordCount(word, 1)] + es;
      assert Added(es, word) == r;
      FindBehind(WordCount(word, 1), es, other);
      match Find(es, other) {
        case Some(k) =>
          assert r[k + 1] == es[k];
        case None =>
      }
  }

  /** Insertion into a list sorted by less: x goes in front of the first
      element that is not less than x. */
  function Insert(x: WordCount, s: seq<WordCount>, less: (WordCount, WordCount) -> bool): (r: seq<WordCount>)
    ensures multiset(r) == multiset(s) + multiset{x}
  {
    if s == [] || !less(s[0], x) then [x] + s
    else
      assert s == [s[0]] + s[1..];
      [s[0]] + Insert(x, s[1..], less)
  }

  /** An insertion sort standing for list_sort: its order is the one
      wordcount_sort promises, the elements stay the same. */
  function SortBy(s: seq<WordCount>, less: (WordCount, WordCount) -> bool): seq<WordCount>
  {
    if s == [] then [] else Insert(s[0], SortBy(s[1..], less), less)
  }

  /** What list_sort demands of its comparison: less is a strict weak
      order, so that "not less" is a preorder. */
  ghost predicate StrictWeakOrder(less: (WordCount, WordCount) -> bool)
  {
    && (forall a, b :: less(a, b) ==> !less(b, a))
    && (forall a, b, c :: !less(a, b) && !less(b, c) ==> !less(a, c))
  }

  /** No element is less than one before it. */
  ghost predicate Sorted(s: seq<WordCount>, less: (WordCount, WordCount) -> bool)
  {
    forall i, j :: 0 <= i < j < |s| ==> !less(s[j], s[i])
  }

  /** Every element of an insertion is the inserted one or came from the
      list. */
  lemma InsertFrom(x: WordCount, s: seq<WordCount>, less: (WordCount, WordCount) -> bool, i: nat)
    requires i < |Insert(x, s, less)|
    ensures Insert(x, s, less)[i] == x || exists k :: 0 <= k < |s| && s[k] == Insert(x, s, less)[i]
  {
    var r := Insert(x, s, less);
    assert r[i] in multiset(r);
  }

  lemma {:induction false} InsertSorted(x: WordCount, s: seq<WordCount>, less: (WordCount, WordCount) -> bool)
    requires StrictWeakOrder(less) && Sorted(s, less)
    ensures Sorted(Insert(x, s, less), less)
  {
    if s == [] || !less(s[0], x) {
      var r := [x] + s;
      forall i, j | 0 <= i < j < |r|
        ensures !less(r[j], r[i])
      {
        if i > 0 {
          assert r[i] == s[i - 1] && r[j] == s[j - 1];
        } else if j > 1 {
          assert !less(s[j - 1], s[0]);
        }
      }
    } else {
      var t := Insert(x, s[1..], less);
      InsertSorted(x, s[1..], less);
      var r := [s[0]] + t;
      forall i, j | 0 <= i < j < |r|
        ensures !less(r[j], r[i])
      {
        if i > 0 {
          assert r[i] == t[i - 1] && r[j] == t[j - 1];
        } else {
          InsertFrom(x, s[1..], less, j - 1);
          if r[j] != x {
            var k :| 0 <= k < |s[1..]| && s[1..][k] == r[j];
            assert s[k + 1] == r[j];
          }
        }
      }
    }
  }

  /** Sorting keeps the elements. */
  lemma {:induction false} SortByPermutes(s: seq<WordCount>, less: (WordCount, WordCount) -> bool)
    ensures multiset(SortBy(s, less)) == multiset(s)
  {
    if s != [] {
      SortByPermutes(s[1..], less);
      assert s == [s[0]] + s[1..];
    }
  }

  /** wordcount_sort's result is ordered by less. */
  lemma {:induction false} SortBySorted(s: seq<WordCount>, less: (WordCount, WordCount) -> bool)
    requires StrictWeakOrder(less)
    ensures Sorted(SortBy(s, less), less)
  {
    if s != [] {
      SortBySorted(s[1..], less);
      InsertSorted(s[0], SortBy(s[1..], less), less);
    }
  }

  /** A word that neither the list nor x has is not in the insertion. */
  lemma InsertAvoids(x: WordCount, s: seq<WordCount>, less: (WordCount, WordCount) -> bool, w: string)
    requires x.word != w && forall j :: 0 <= j < |s| ==> s[j].word != w
    ensures forall j :: 0 <= j < |Insert(x, s, less)| ==> Insert(x, s, less)[j].word != w
  {
    forall j | 0 <= j < |Insert(x, s, less)|
      ensures Insert(x, s, less)[j].word != w
    {
      InsertFrom(x, s, less, j);
    }
  }

  /** Inserting an entry for a new word keeps the words distinct. */
  lemma {:induction false} InsertDistinct(x: WordCount, s: seq<WordCount>, less: (WordCount, WordCount) -> bool)
    requires Distinct(s) && forall j :: 0 <= j < |s| ==> s[j].word != x.word
    ensures Distinct(Insert(x, s, less))
  {
    if s != [] && less(s[0], x) {
      var t := Insert(x, s[1..], less);
      InsertDistinct(x, s[1..], less);
      var r := [s[0]] + t;
      assert forall j :: 0 <= j < |s[1..]| ==> s[1..][j] == s[j + 1];
      InsertAvoids(x, s[1..], less, s[0].word);
      forall i, j | 0 <= i < j < |r|
        ensures r[i].word != r[j].word
      {
        if i > 0 {
          assert r[i] == t[i - 1] && r[j] == t[j - 1];
        } else {
          assert r[j] == t[j - 1];
        }
      }
    } else {
      var r := [x] + s;
      forall i, j | 0 <= i < j < |r|
        ensures r[i].word != r[j].word
      {
        assert r[j] == s[j - 1];
        if i > 0 {
          assert r[i] == s[i - 1];
        }
      }
    }
  }

  /** Inserting an entry with a positive count keeps every count positive. */
  lemma InsertPositive(x: WordCount, s: seq<WordCount>, less: (WordCount, WordCount) -> bool)
    requires Positive(s) && x.count >= 1
    ensures Positive(Insert(x, s, less))
  {
    var r := Insert(x, s, less);
    forall i | 0 <= i < |r|
      ensures r[i].count >= 1
    {
      InsertFrom(x, s, less, i);
    }
  }

  /** Sorting keeps the invariant. */
  lemma {:induction false} SortByWellFormed(s: seq<WordCount>, less: (WordCount, WordCount) -> bool)
    requires WellFormed(s)
    ensures WellFormed(SortBy(s, less))
  {
    if s != [] {
      var t := SortBy(s[1..], less);
      SortByWellFormed(s[1..], less);
      SortByPermutes(s[1..], less);
      forall j | 0 <= j < |t|
        ensures t[j].word != s[0].word
      {
        assert t[j] in multiset(s[1..]);
        var k :| 0 <= k < |s[1..]| && s[1..][k] == t[j];
        assert s[k + 1] == t[j];
      }
      InsertDistinct(s[0], t, less);
      InsertPositive(s[0], t, less);
    }
  }

  /** The character for one decimal digit. */
  function Digit(k: nat): (c: char)
    requires k < 10
    ensures '0' <= c <= '9' && c as int - '0' as int == k
  {
    ('0' as int + k) as char
  }

  /** The decimal digits of n, most significant first. */
  function Digits(n: nat): (s: string)
    ensures |s| >= 1 && forall i :: 0 <= i < |s| ==> '0' <= s[i] <= '9'
    decreases n
  {
    (if n < 10 then [] else Digits(n / 10)) + [Digit(n % 10)]
  }

  /** The number a string of decimal digits denotes. */
  function Value(s: string): int
  {
    if s == [] then 0 else 10 * Value(s[..|s| - 1]) + (s[|s| - 1] as int - '0' as int)
  }

  lemma ValueSnoc(s: string, k: nat)
    requires k < 10
    ensures Value(s + [Digit(k)]) == 10 * Value(s) + k
  {
    assert (s + [Digit(k)])[..|s|] == s;
  }

  /** Reading the digits back gives the number. */
  lemma {:induction false} DigitsValue(n: nat)
    ensures Value(Digits(n)) == n
    decreases n
  {
    if n < 10 {
      ValueSnoc([], n);
    } else {
      var q, k := n / 10, n % 10;
      assert Digits(n) == Digits(q) + [Digit(k)];
      DigitsValue(q);
      ValueSnoc(Digits(q), k);
    }
  }

  /** A number of two digits or more has no leading zero. */
  lemma {:induction false} DigitsLead(n: nat)
    ensures n >= 10 ==> Digits(n)[0] != '0'
    decreases n
  {
    if n >= 10 {
      var q := n / 10;
      DigitsLead(q);
      assert Digits(n)[0] == Digits(q)[0];
      if q < 10 {
        assert Digits(q) == [Digit(q)];
      }
    }
  }

  /** %d: the decimal text of x, with a minus sign when x is negative. */
  function Decimal(x: int): string
  {
    if x < 0 then "-" + Digits(-x) else Digits(x)
  }

  /** A field of the given width with s right-justified in it, as printf
      pads a conversion; s is never cut short. */
  function PadLeft(s: string, width: nat): (r: string)
    ensures |r| == if |s| < width then width else |s|
    ensures r[|r| - |s|..] == s
    ensures forall i :: 0 <= i < |r| - |s| ==> r[i] == ' '
  {
    if |s| >= width then s else seq(width - |s|, _ => ' ') + s
  }

  /** The line fprint_words writes for one entry: "%8d\t%s\n". */
  function Line(e: WordCount): string
  {
    PadLeft(Decimal(e.count), 8) + "\t" + e.word + "\n"
  }

  /** Everything fprint_words writes: one line per entry, in list order. */
  function Render(es: seq<WordCount>): string
  {
    if es == [] then [] else Render(es[..|es| - 1]) + Line(es[|es| - 1])
  }

  /** A positive count is printed as its own digits, right-justified in
      eight columns, and reads back as the count. */
  lemma LineFields(e: WordCount)
    requires e.count >= 1
    ensures var d := Digits(e.count);
            && Line(e) == PadLeft(d, 8) + "\t" + e.word + "\n"
            && Value(d) == e.count
            && (e.count >= 10 ==> d[0] != '0')
  {
    DigitsValue(e.count);
    DigitsLead(e.count);
  }

  function Newlines(s: string): nat
  {
    if s == [] then 0 else Newlines(s[..|s| - 1]) + (if s[|s| - 1] == '\n' then 1 else 0)
  }

  lemma {:induction false} NewlinesAppend(a: string, b: string)
    ensures Newlines(a + b) == Newlines(a) + Newlines(b)
    decreases |b|
  {
    if b == [] {
      assert a + b == a;
    } else {
      NewlinesAppend(a, b[..|b| - 1]);
      assert (a + b)[..|a + b| - 1] == a + b[..|b| - 1];
    }
  }

  lemma {:induction false} NoNewlines(s: string)
    requires forall i :: 0 <= i < |s| ==> s[i] != '\n'
    ensures Newlines(s) == 0
  {
    if s != [] {
      NoNewlines(s[..|s| - 1]);
    }
  }

  /** The count field holds only spaces, digits and a sign. */
  lemma PadNoNewline(x: int)
    ensures '\n' !in PadLeft(Decimal(x), 8)
  {
    var d := Decimal(x);
    var p := PadLeft(d, 8);
    assert forall i :: 0 <= i < |d| ==> d[i] != '\n';
    forall i | |p| - |d| <= i < |p|
      ensures p[i] != '\n'
    {
      assert p[i] == p[|p| - |d|..][i - (|p| - |d|)];
    }
  }

  lemma LineNewlines(e: WordCount)
    requires '\n' !in e.word
    ensures Newlines(Line(e)) == 1
  {
    var h := PadLeft(Decimal(e.count), 8) + "\t" + e.word;
    PadNoNewline(e.count);
    NoNewlines(h);
    NewlinesAppend(h, "\n");
    assert "\n"[..0] == [];
  }

  /** Each entry whose word holds no newline makes exactly one line. */
  lemma {:induction false} RenderLines(es: seq<WordCount>)
    requires forall i :: 0 <= i < |es| ==> '\n' !in es[i].word
    ensures Newlines(Render(es)) == |es|
  {
    if es != [] {
      RenderLines(es[..|es| - 1]);
      LineNewlines(es[|es| - 1]);
      NewlinesAppend(Render(es[..|es| - 1]), Line(es[|es| - 1]));
    }
  }

  /** word_count_list_t: the entries in list order. */
  class WordCountList {
    var entries: seq<WordCount>

    ghost predicate Valid()
      reads this
    {
      WellFormed(entries)
    }

    /** init_words: an empty list. */
    constructor ()
      ensures entries == [] && Valid()
    {
      entries := [];
    }

    /** len_words: the number of entries. */
    method Len() returns (n: nat)
      ensures n == |entries|
    {
      n := |entries|;
    }

    /** find_word: the list walked front to back, stopping at the first
        entry for word; None (NULL) when no entry has it. */
    method FindWord(word: string) returns (r: Option<nat>)
      ensures r == Find(entries, word)
    {
      var i := 0;
      while i < |entries|
        invariant i <= |entries|
        invariant forall j :: 0 <= j < i ==> entries[j].word != word
      {
        if entries[i].word == word {
          return Some(i);
        }
        i := i + 1;
      }
      return None;
    }

    /** add_word: the first entry for word counted once more, or a new
        entry with count 1 pushed at the front; the entry is returned. */
    method AddWord(word: string) returns (i: nat)
      requires Valid()
      modifies this
      ensures Valid()
      ensures entries == Added(old(entries), word)
      ensures i < |entries| && entries[i].word == word
    {
      AddedWellFormed(entries, word);
      var j := 0;
      while j < |entries|
        invariant j <= |entries|
        invariant forall k :: 0 <= k < j ==> entries[k].word != word
        invariant entries == old(entries)
      {
        if entries[j].word == word {
          entries := entries[j := entries[j].(count := entries[j].count + 1)];
          return j;
        }
        j := j + 1;
      }
      entries := [WordCount(word, 1)] + entries;
      return 0;
    }

    /** fprint_words: the text written to the file, entry by entry. */
    method FprintWords() returns (out: string)
      ensures out == Render(entries)
    {
      out := [];
      for i := 0 to |entries|
        invariant out == Render(entries[..i])
      {
        assert entries[..i + 1][..i] == entries[..i];
        out := out + Line(entries[i]);
      }
      assert entries[..|entries|] == entries;
    }

    /** wordcount_sort: the entries reordered by less. */
    method Sort(less: (WordCount, WordCount) -> bool)
      requires Valid() && StrictWeakOrder(less)
      modifies this
      ensures Valid()
      ensures entries == SortBy(old(entries), less)
      ensures multiset(entries) == multiset(old(entries)) && Sorted(entries, less)
    {
      SortByPermutes(entries, less);
      SortBySorted(entries, less);
      SortByWellFormed(entries, less);
      entries := SortBy(entries, less);
    }
  }
}
