/**
 * The query engine behind `filteredContent` and `sentenceCategories`
 * (App.tsx): case-insensitive substring search over words and sentences,
 * the category filter, the three orders of the words tab, and the list of
 * distinct sentence categories.
 *
 * `String.prototype.toLowerCase` and `String.prototype.localeCompare` are
 * library semantics the model does not fix; they are passed in as `lower`
 * and `collate`.
 */
module Query {
  import opened Types
  import opened Seqs
  import opened Sorting

  /** The category-filter sentinel meaning "no restriction". */
  const AllCategories: string := "ALL"

  /** `sub` stands in `s` starting at position `i`. */
  ghost predicate OccursAt(s: string, sub: string, i: int) {
    0 <= i && i + |sub| <= |s| && s[i..i + |sub|] == sub
  }

  /** `s.includes(sub)`: some position of `s` starts a copy of `sub`. */
  function Includes(s: string, sub: string): (b: bool)
    ensures sub == [] ==> b
    ensures |sub| > |s| ==> !b
    decreases |s|
  {
    if sub <= s then true
    else if s == [] then false
    else Includes(s[1..], sub)
  }

  /** An occurrence in the tail of `s` is an occurrence in `s` one position further on. */
  lemma OccursAtTail(s: string, sub: string, i: int)
    requires s != [] && 0 <= i
    ensures OccursAt(s[1..], sub, i) <==> OccursAt(s, sub, i + 1)
  {
    if i + |sub| <= |s| - 1 {
      assert s[1..][i..i + |sub|] == s[i + 1..i + 1 + |sub|];
    }
  }

  /** The scan in `Includes` answers exactly whether `sub` occurs somewhere in `s`. */
  lemma {:induction false} IncludesIffOccurs(s: string, sub: string)
    ensures Includes(s, sub) <==> exists i :: OccursAt(s, sub, i)
    decreases |s|
  {
    if sub <= s {
      assert s[0..|sub|] == sub;
      assert OccursAt(s, sub, 0);
    } else if s == [] {
      assert forall i :: !OccursAt(s, sub, i);
    } else {
      IncludesIffOccurs(s[1..], sub);
      if Includes(s[1..], sub) {
        var i :| OccursAt(s[1..], sub, i);
        OccursAtTail(s, sub, i);
      } else {
        forall i ensures !OccursAt(s, sub, i) {
          if 0 < i {
            OccursAtTail(s, sub, i - 1);
          }
        }
      }
    }
  }

  /**
   * The search predicate of the words tab: the lowered query is a substring
   * of the lowered `word`, `translation`, `definition` or one of the `tags`.
   * An absent `translation` or `tags` takes no part (`?.` yields undefined).
   */
  predicate WordMatches(w: WordEntry, query: string, lower: string -> string) {
    var q := lower(query);
    || Includes(lower(w.word), q)
    || (w.translation.Some? && Includes(lower(w.translation.value), q))
    || Includes(lower(w.definition), q)
    || (w.tags.Some? && exists t :: t in w.tags.value && Includes(lower(t), q))
  }

  /** The search-and-category predicate of the sentences tab. */
  predicate SentenceMatches(s: SentenceEntry, query: string, category: string, lower: string -> string) {
    var q := lower(query);
    var matchesSearch := Includes(lower(s.content), q) || Includes(lower(s.translation), q);
    var matchesCategory := category == AllCategories || s.category == category;
    matchesSearch && matchesCategory
  }

  function WordFilter(words: seq<WordEntry>, query: string, lower: string -> string): seq<WordEntry> {
    Filter(words, w => WordMatches(w, query, lower))
  }

  function SentenceFilter(sentences: seq<SentenceEntry>, query: string, category: string, lower: string -> string): seq<SentenceEntry> {
    Filter(sentences, s => SentenceMatches(s, query, category, lower))
  }

  /**
   * An empty query keeps every word: `"".includes` holds of every string,
   * given that lowering the empty string yields the empty string.
   */
  lemma EmptyQueryKeepsAllWords(words: seq<WordEntry>, lower: string -> string)
    requires lower("") == ""
    ensures WordFilter(words, "", lower) == words
  {
    forall w | w in words ensures WordMatches(w, "", lower) {
      assert Includes(lower(w.word), "");
    }
    FilterKeepsAll(words, w => WordMatches(w, "", lower));
  }

  /** An empty query with the sentinel category keeps every sentence. */
  lemma EmptyQueryKeepsAllSentences(sentences: seq<SentenceEntry>, lower: string -> string)
    requires lower("") == ""
    ensures SentenceFilter(sentences, "", AllCategories, lower) == sentences
  {
    forall s | s in sentences ensures SentenceMatches(s, "", AllCategories, lower) {
      assert Includes(lower(s.content), "");
    }
    FilterKeepsAll(sentences, s => SentenceMatches(s, "", AllCategories, lower));
  }

  /** Without `translation` and `tags` a word can only match on `word` or `definition`. */
  lemma MissingFieldsDoNotMatch(w: WordEntry, query: string, lower: string -> string)
    requires w.translation.None? && w.tags.None?
    ensures WordMatches(w, query, lower) <==>
              Includes(lower(w.word), lower(query)) || Includes(lower(w.definition), lower(query))
  {
  }

  /** `(a, b) => b.createdAt - a.createdAt` */
  function WordsNewestFirst(): (WordEntry, WordEntry) -> int {
    (a: WordEntry, b: WordEntry) => b.createdAt - a.createdAt
  }

  /** `(a, b) => a.createdAt - b.createdAt` */
  function WordsOldestFirst(): (WordEntry, WordEntry) -> int {
    (a: WordEntry, b: WordEntry) => a.createdAt - b.createdAt
  }

  /** `(a, b) => a.word.localeCompare(b.word)` */
  function WordsByWord(collate: (string, string) -> int): (WordEntry, WordEntry) -> int {
    (a: WordEntry, b: WordEntry) => collate(a.word, b.word)
  }

  /** The comparator the `switch` on the sort option hands to `sort`. */
  function WordComparator(option: SortOption, collate: (string, string) -> int): (WordEntry, WordEntry) -> int {
    match option
    case Alphabetical => WordsByWord(collate)
    case Oldest => WordsOldestFirst()
    case Newest => WordsNewestFirst()
  }

  /** `(a, b) => b.createdAt - a.createdAt` on sentences. */
  function SentencesNewestFirst(): (SentenceEntry, SentenceEntry) -> int {
    (a: SentenceEntry, b: SentenceEntry) => b.createdAt - a.createdAt
  }

  /** The order each sort option promises, stated on the entries' keys. */
  ghost predicate OrderedFor(r: seq<WordEntry>, option: SortOption, collate: (string, string) -> int) {
    match option
    case Newest => forall i, j :: 0 <= i < j < |r| ==> r[i].createdAt >= r[j].createdAt
    case Oldest => forall i, j :: 0 <= i < j < |r| ==> r[i].createdAt <= r[j].createdAt
    case Alphabetical => forall i, j :: 0 <= i < j < |r| ==> collate(r[i].word, r[j].word) <= 0
  }

  /** The creation-time comparators are total preorders, and so is the word comparator under a consistent collation. */
  lemma WordComparatorIsPreorder(option: SortOption, collate: (string, string) -> int)
    requires option == Alphabetical ==> TotalPreorder(collate)
    ensures TotalPreorder(WordComparator(option, collate))
  {
    if option == Alphabetical {
      var c := WordsByWord(collate);
      forall x, y ensures c(x, y) <= 0 || c(y, x) <= 0 {
        assert c(x, y) == collate(x.word, y.word) && c(y, x) == collate(y.word, x.word);
      }
      forall x, y, z | c(x, y) <= 0 && c(y, z) <= 0 ensures c(x, z) <= 0 {
        assert collate(x.word, y.word) <= 0 && collate(y.word, z.word) <= 0;
      }
    }
  }

  /** Being sorted by the comparator is exactly the order the option promises. */
  lemma SortedByComparatorIffOrdered(r: seq<WordEntry>, option: SortOption, collate: (string, string) -> int)
    ensures SortedBy(r, WordComparator(option, collate)) <==> OrderedFor(r, option, collate)
  {
  }

  /**
   * The words view is fully determined: two lists both in the option's
   * order and both keeping tied words in their filtered order are equal.
   */
  lemma WordsViewUnique(r1: seq<WordEntry>, r2: seq<WordEntry>, words: seq<WordEntry>, query: string,
                        option: SortOption, lower: string -> string, collate: (string, string) -> int)
    requires option == Alphabetical ==> TotalPreorder(collate)
    requires OrderedFor(r1, option, collate) && OrderedFor(r2, option, collate)
    requires StableFrom(r1, WordFilter(words, query, lower), WordComparator(option, collate))
    requires StableFrom(r2, WordFilter(words, query, lower), WordComparator(option, collate))
    ensures r1 == r2
  {
    WordComparatorIsPreorder(option, collate);
    SortedByComparatorIffOrdered(r1, option, collate);
    SortedByComparatorIffOrdered(r2, option, collate);
    SortedStableUnique(r1, r2, WordFilter(words, query, lower), WordComparator(option, collate));
  }

  /**
   * The sentences view is fully determined: two lists both newest first and
   * both keeping sentences of equal `createdAt` in their filtered order are equal.
   */
  lemma SentencesViewUnique(r1: seq<SentenceEntry>, r2: seq<SentenceEntry>, sentences: seq<SentenceEntry>,
                            query: string, category: string, lower: string -> string)
    requires forall i, j :: 0 <= i < j < |r1| ==> r1[i].createdAt >= r1[j].createdAt
    requires forall i, j :: 0 <= i < j < |r2| ==> r2[i].createdAt >= r2[j].createdAt
    requires StableFrom(r1, SentenceFilter(sentences, query, category, lower), SentencesNewestFirst())
    requires StableFrom(r2, SentenceFilter(sentences, query, category, lower), SentencesNewestFirst())
    ensures r1 == r2
  {
    SortedStableUnique(r1, r2, SentenceFilter(sentences, query, category, lower), SentencesNewestFirst());
  }

  /**
   * The words branch of `filteredContent`: filter, then sort the fresh
   * result in place. The answer holds exactly the matching words, each as
   * often as in `words`, in the order the sort option names; words the
   * comparator ties keep their stored order.
   */
  method QueryWords(words: seq<WordEntry>, query: string, option: SortOption,
                    lower: string -> string, collate: (string, string) -> int)
    returns (r: seq<WordEntry>)
    requires option == Alphabetical ==> TotalPreorder(collate)
    ensures multiset(r) == multiset(WordFilter(words, query, lower))
    ensures forall w :: w in r <==> w in words && WordMatches(w, query, lower)
    ensures OrderedFor(r, option, collate)
    ensures StableFrom(r, WordFilter(words, query, lower), WordComparator(option, collate))
  {
    var kept := WordFilter(words, query, lower);
    var a := new WordEntry[|kept|](i requires 0 <= i < |kept| => kept[i]);
    assert a[..] == kept;
    WordComparatorIsPreorder(option, collate);
    SortInPlace(a, WordComparator(option, collate));
    r := a[..];
    SortedByComparatorIffOrdered(r, option, collate);
    assert forall w :: w in r <==> w in multiset(kept);
  }

  /**
   * The sentences branch of `filteredContent`: the sentences matching the
   * query and the category, newest first whatever the sort option is;
   * sentences created at the same instant keep their stored order.
   */
  method QuerySentences(sentences: seq<SentenceEntry>, query: string, category: string,
                        lower: string -> string)
    returns (r: seq<SentenceEntry>)
    ensures multiset(r) == multiset(SentenceFilter(sentences, query, category, lower))
    ensures forall s :: s in r <==> s in sentences && SentenceMatches(s, query, category, lower)
    ensures forall i, j :: 0 <= i < j < |r| ==> r[i].createdAt >= r[j].createdAt
    ensures StableFrom(r, SentenceFilter(sentences, query, category, lower), SentencesNewestFirst())
  {
    var kept := SentenceFilter(sentences, query, category, lower);
    var a := new SentenceEntry[|kept|](i requires 0 <= i < |kept| => kept[i]);
    assert a[..] == kept;
    SortInPlace(a, SentencesNewestFirst());
    r := a[..];
    assert forall s :: s in r <==> s in multiset(kept);
  }

  /** `sentences.map(s => s.category)` */
  function CategoryColumn(sentences: seq<SentenceEntry>): seq<string> {
    seq(|sentences|, i requires 0 <= i < |sentences| => sentences[i].category)
  }

  /**
   * `Array.from(new Set(sentences.map(s => s.category)))`: every category
   * in use, each once.
   */
  function Categories(sentences: seq<SentenceEntry>): (r: seq<string>)
    ensures forall c :: c in r <==> exists s :: s in sentences && s.category == c
    ensures NoDuplicates(r)
  {
    var column := CategoryColumn(sentences);
    assert forall c :: c in column <==> exists s :: s in sentences && s.category == c by {
      forall c | c in column ensures exists s :: s in sentences && s.category == c {
        var i :| 0 <= i < |column| && column[i] == c;
        assert sentences[i] in sentences;
      }
      forall c, s | s in sentences && s.category == c ensures c in column {
        var i :| 0 <= i < |sentences| && sentences[i] == s;
        assert column[i] == c;
      }
    }
    Dedup(column)
  }

  /** The categories appear in the order in which the sentences first use them. */
  lemma CategoriesFirstSeenOrder(sentences: seq<SentenceEntry>)
    ensures forall i, j :: 0 <= i < j < |Categories(sentences)| ==>
              IndexOf(CategoryColumn(sentences), Categories(sentences)[i]) <
              IndexOf(CategoryColumn(sentences), Categories(sentences)[j])
  {
    DedupFirstSeenOrder(CategoryColumn(sentences));
  }
}
