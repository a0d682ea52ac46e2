/**
 * The collection store of App.tsx: the two state cells `words` and
 * `sentences`, the handlers that replace them, and the derived data the
 * page renders from them. The generated id, the clock reading and the
 * answer of the confirmation prompt are parameters of the handlers.
 */
module Store {
  import opened Types
  import opened Seqs
  import opened Sorting
  import opened Query

  /** What reading one saved slot yields: nothing stored, text that does not parse, or the parsed entries. */
  datatype Slot<T> = Missing | Corrupt | Parsed(entries: seq<T>)

  /** The value of `filteredContent`: a list of words or a list of sentences, after the active tab. */
  datatype Content = WordList(words: seq<WordEntry>) | SentenceList(sentences: seq<SentenceEntry>)

  /** `prev.filter(e => e.id !== id)` */
  function WithoutId<T(!new)>(s: seq<T>, id: string, key: T -> string): seq<T> {
    Filter(s, e => key(e) != id)
  }

  /** Delete removes exactly the entries carrying `id` and keeps the others in their order. */
  lemma WithoutIdRemovesExactly<T(!new)>(s: seq<T>, id: string, key: T -> string)
    ensures forall x :: x in WithoutId(s, id, key) <==> x in s && key(x) != id
    ensures forall x :: key(x) != id ==> multiset(WithoutId(s, id, key))[x] == multiset(s)[x]
    ensures IsSubsequence(WithoutId(s, id, key), s)
  {
    FilterCounts(s, e => key(e) != id);
    FilterIsSubsequence(s, e => key(e) != id);
  }

  /** Delete keeps the ids unique. */
  lemma WithoutIdKeepsUniqueKeys<T(!new)>(s: seq<T>, id: string, key: T -> string)
    requires UniqueKeys(s, key)
    ensures UniqueKeys(WithoutId(s, id, key), key)
  {
    FilterKeepsUniqueKeys(s, e => key(e) != id, key);
  }

  /** Deleting an id no entry carries changes nothing. */
  lemma WithoutAbsentId<T(!new)>(s: seq<T>, id: string, key: T -> string)
    requires forall x :: x in s ==> key(x) != id
    ensures WithoutId(s, id, key) == s
  {
    FilterKeepsAll(s, e => key(e) != id);
  }

  /** In a collection with unique ids, deleting a present id removes one entry. */
  lemma {:induction false} WithoutPresentIdRemovesOne<T(!new)>(s: seq<T>, id: string, key: T -> string)
    requires UniqueKeys(s, key)
    requires exists x :: x in s && key(x) == id
    ensures |WithoutId(s, id, key)| == |s| - 1
  {
    UniqueKeysTail(s, key);
    if key(s[0]) == id {
      WithoutAbsentId(s[1..], id, key);
    } else {
      var x :| x in s && key(x) == id;
      assert x in s[1..];
      WithoutPresentIdRemovesOne(s[1..], id, key);
    }
  }

  /** Deleting an entry just added with a fresh id gives back the collection before the add. */
  lemma DeleteUndoesAdd<T(!new)>(s: seq<T>, e: T, key: T -> string)
    requires forall x :: x in s ==> key(x) != key(e)
    ensures WithoutId([e] + s, key(e), key) == s
  {
    assert ([e] + s)[1..] == s;
    WithoutAbsentId(s, key(e), key);
  }

  /** `prev.map(w => w.id === id ? { ...w, notes: newNote } : w)` */
  function WithNote(words: seq<WordEntry>, id: string, newNote: string): seq<WordEntry> {
    seq(|words|, i requires 0 <= i < |words| => if words[i].id == id then words[i].(notes := newNote) else words[i])
  }

  /**
   * The note update keeps length and order, gives matching entries the new
   * note and touches no other field and no other entry.
   */
  lemma WithNoteIsolated(words: seq<WordEntry>, id: string, newNote: string)
    ensures |WithNote(words, id, newNote)| == |words|
    ensures forall i :: 0 <= i < |words| ==>
              var w := WithNote(words, id, newNote)[i];
              && w.(notes := words[i].notes) == words[i]
              && (words[i].id == id ==> w.notes == newNote)
              && (words[i].id != id ==> w == words[i])
  {
  }

  /** Updating the same note twice is the same as once. */
  lemma WithNoteIdempotent(words: seq<WordEntry>, id: string, newNote: string)
    ensures WithNote(WithNote(words, id, newNote), id, newNote) == WithNote(words, id, newNote)
  {
  }

  /** An update for an id no word carries changes nothing. */
  lemma WithNoteAbsentId(words: seq<WordEntry>, id: string, newNote: string)
    requires forall w :: w in words ==> w.id != id
    ensures WithNote(words, id, newNote) == words
  {
  }

  /** The note update keeps the ids unique. */
  lemma WithNoteKeepsUniqueIds(words: seq<WordEntry>, id: string, newNote: string)
    requires UniqueKeys(words, WordId)
    ensures UniqueKeys(WithNote(words, id, newNote), WordId)
  {
    var r := WithNote(words, id, newNote);
    forall i, j | 0 <= i < j < |r| ensures WordId(r[i]) != WordId(r[j]) {
      assert r[i].id == words[i].id && r[j].id == words[j].id;
    }
  }

  class Dictionary {
    var words: seq<WordEntry>
    var sentences: seq<SentenceEntry>

    /** Every id is unique within its collection. */
    ghost predicate Valid()
      reads this
    {
      UniqueKeys(words, WordId) && UniqueKeys(sentences, SentenceId)
    }

    /**
     * Start-up load: a slot that is missing or does not parse leaves its
     * collection empty; a parsed slot becomes the collection.
     */
    constructor (savedWords: Slot<WordEntry>, savedSentences: Slot<SentenceEntry>)
      ensures words == (if savedWords.Parsed? then savedWords.entries else [])
      ensures sentences == (if savedSentences.Parsed? then savedSentences.entries else [])
      ensures && (savedWords.Parsed? ==> UniqueKeys(savedWords.entries, WordId))
              && (savedSentences.Parsed? ==> UniqueKeys(savedSentences.entries, SentenceId))
              ==> Valid()
    {
      words := if savedWords.Parsed? then savedWords.entries else [];
      sentences := if savedSentences.Parsed? then savedSentences.entries else [];
    }

    /** `handleAddWord`: the new entry goes to the front; an id no word carries keeps the ids unique. */
    method AddWord(draft: WordDraft, id: string, now: int)
      modifies this
      ensures words == [NewWord(draft, id, now)] + old(words)
      ensures sentences == old(sentences)
      ensures old(Valid()) && (forall w :: w in old(words) ==> w.id != id) ==> Valid()
    {
      var entry := NewWord(draft, id, now);
      words := [entry] + words;
      if old(Valid()) && (forall w :: w in old(words) ==> w.id != id) {
        forall i, j | 0 <= i < j < |words| ensures WordId(words[i]) != WordId(words[j]) {
          if i == 0 {
            assert words[j] == old(words)[j - 1];
          } else {
            assert words[i] == old(words)[i - 1] && words[j] == old(words)[j - 1];
          }
        }
      }
    }

    /** `handleAddSentence`. */
    method AddSentence(draft: SentenceDraft, id: string, now: int)
      modifies this
      ensures sentences == [NewSentence(draft, id, now)] + old(sentences)
      ensures words == old(words)
      ensures old(Valid()) && (forall s :: s in old(sentences) ==> s.id != id) ==> Valid()
    {
      var entry := NewSentence(draft, id, now);
      sentences := [entry] + sentences;
      if old(Valid()) && (forall s :: s in old(sentences) ==> s.id != id) {
        forall i, j | 0 <= i < j < |sentences| ensures SentenceId(sentences[i]) != SentenceId(sentences[j]) {
          if i == 0 {
            assert sentences[j] == old(sentences)[j - 1];
          } else {
            assert sentences[i] == old(sentences)[i - 1] && sentences[j] == old(sentences)[j - 1];
          }
        }
      }
    }

    /** `handleDeleteWord`: only a confirmed delete filters the words. */
    method DeleteWord(id: string, confirmed: bool)
      modifies this
      ensures words == if confirmed then WithoutId(old(words), id, WordId) else old(words)
      ensures old(Valid()) && confirmed && (exists w :: w in old(words) && w.id == id) ==>
                |words| == |old(words)| - 1
      ensures sentences == old(sentences)
      ensures old(Valid()) ==> Valid()
    {
      if confirmed {
        if Valid() {
          WithoutIdKeepsUniqueKeys(words, id, WordId);
          if exists w :: w in words && w.id == id {
            WithoutPresentIdRemovesOne(words, id, WordId);
          }
        }
        words := WithoutId(words, id, WordId);
      }
    }

    /** `handleDeleteSentence`. */
    method DeleteSentence(id: string, confirmed: bool)
      modifies this
      ensures sentences == if confirmed then WithoutId(old(sentences), id, SentenceId) else old(sentences)
      ensures old(Valid()) && confirmed && (exists s :: s in old(sentences) && s.id == id) ==>
                |sentences| == |old(sentences)| - 1
      ensures words == old(words)
      ensures old(Valid()) ==> Valid()
    {
      if confirmed {
        if Valid() {
          WithoutIdKeepsUniqueKeys(sentences, id, SentenceId);
          if exists s :: s in sentences && s.id == id {
            WithoutPresentIdRemovesOne(sentences, id, SentenceId);
          }
        }
        sentences := WithoutId(sentences, id, SentenceId);
      }
    }

    /** `handleUpdateNote`. */
    method UpdateNote(id: string, newNote: string)
      modifies this
      ensures words == WithNote(old(words), id, newNote)
      ensures sentences == old(sentences)
      ensures old(Valid()) ==> Valid()
    {
      if Valid() {
        WithNoteKeepsUniqueIds(words, id, newNote);
      }
      words := WithNote(words, id, newNote);
    }

    /** The `sentenceCategories` memo: every category in use, once each. */
    function SentenceCategories(): (r: seq<string>)
      reads this
      ensures forall c :: c in r <==> exists s :: s in sentences && s.category == c
      ensures NoDuplicates(r)
    {
      Categories(sentences)
    }

    /**
     * The `filteredContent` memo. It has no `modifies` clause: computing the
     * view leaves both collections as they were.
     */
    method FilteredContent(tab: AppTab, query: string, option: SortOption, category: string,
                           lower: string -> string, collate: (string, string) -> int)
      returns (c: Content)
      requires tab == Words && option == Alphabetical ==> TotalPreorder(collate)
      ensures tab == Words ==>
                && c.WordList?
                && multiset(c.words) == multiset(WordFilter(words, query, lower))
                && OrderedFor(c.words, option, collate)
                && StableFrom(c.words, WordFilter(words, query, lower), WordComparator(option, collate))
      ensures tab == Sentences ==>
                && c.SentenceList?
                && multiset(c.sentences) == multiset(SentenceFilter(sentences, query, category, lower))
                && (forall i, j :: 0 <= i < j < |c.sentences| ==> c.sentences[i].createdAt >= c.sentences[j].createdAt)
                && StableFrom(c.sentences, SentenceFilter(sentences, query, category, lower), SentencesNewestFirst())
    {
      if tab == Words {
        var r := QueryWords(words, query, option, lower, collate);
        c := WordList(r);
      } else {
        var r := QuerySentences(sentences, query, category, lower);
        c := SentenceList(r);
      }
    }
  }
}
