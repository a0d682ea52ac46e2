/**
 * The records of the vocabulary manager (types.ts): word entries, sentence
 * entries, the drafts a form hands to the store, the sort options of the
 * words tab and the two tabs of the application.
 */
module Types {

  datatype Option<T> = None | Some(value: T)

  /**
   * A vocabulary record. The declared type makes every field required, but
   * the query engine reads `translation` and `tags` through optional
   * chaining, because entries loaded from older saved data may lack them;
   * the model keeps that possibility as `Option`.
   */
  datatype WordEntry = WordEntry(
    id: string,
    word: string,
    translation: Option<string>,
    definition: string,
    partOfSpeech: string,
    examples: seq<string>,
    notes: string,
    createdAt: int,
    tags: Option<seq<string>>)

  /** A phrase record. */
  datatype SentenceEntry = SentenceEntry(
    id: string,
    content: string,
    translation: string,
    category: string,
    notes: string,
    createdAt: int)

  /** The fields of a word entry that the add-word form supplies: all but `id` and `createdAt`. */
  datatype WordDraft = WordDraft(
    word: string,
    translation: Option<string>,
    definition: string,
    partOfSpeech: string,
    examples: seq<string>,
    notes: string,
    tags: Option<seq<string>>)

  /** The fields of a sentence entry that the add-sentence form supplies. */
  datatype SentenceDraft = SentenceDraft(
    content: string,
    translation: string,
    category: string,
    notes: string)

  /** What a word-lookup collaborator returns to pre-fill the add-word form. */
  datatype AIResponse = AIResponse(
    translation: string,
    definition: string,
    partOfSpeech: string,
    examples: seq<string>,
    tags: seq<string>)

  datatype SortOption = Newest | Oldest | Alphabetical

  datatype AppTab = Words | Sentences

  function WordId(w: WordEntry): string { w.id }

  function SentenceId(s: SentenceEntry): string { s.id }

  /** The user-supplied part of a word entry. */
  function WordDraftOf(e: WordEntry): WordDraft {
    WordDraft(e.word, e.translation, e.definition, e.partOfSpeech, e.examples, e.notes, e.tags)
  }

  /** The user-supplied part of a sentence entry. */
  function SentenceDraftOf(e: SentenceEntry): SentenceDraft {
    SentenceDraft(e.content, e.translation, e.category, e.notes)
  }

  /**
   * `{ ...newWord, id, createdAt }`: the draft's fields plus the generated
   * identity. Together with `WordDraftOf` this splits an entry losslessly.
   */
  function NewWord(d: WordDraft, id: string, createdAt: int): (e: WordEntry)
    ensures e.id == id && e.createdAt == createdAt
    ensures WordDraftOf(e) == d
  {
    WordEntry(id, d.word, d.translation, d.definition, d.partOfSpeech, d.examples, d.notes, createdAt, d.tags)
  }

  /** `{ ...newSentence, id, createdAt }`. */
  function NewSentence(d: SentenceDraft, id: string, createdAt: int): (e: SentenceEntry)
    ensures e.id == id && e.createdAt == createdAt
    ensures SentenceDraftOf(e) == d
  {
    SentenceEntry(id, d.content, d.translation, d.category, d.notes, createdAt)
  }

  /** Every entry is its draft plus its identity: the split loses nothing. */
  lemma WordSplitRoundTrip(e: WordEntry)
    ensures NewWord(WordDraftOf(e), e.id, e.createdAt) == e
  {
  }

  lemma SentenceSplitRoundTrip(e: SentenceEntry)
    ensures NewSentence(SentenceDraftOf(e), e.id, e.createdAt) == e
  {
  }
}
