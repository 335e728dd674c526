/** The two request handlers of `app.py` that touch the store: `upload` admits
    extracted text only when it holds enough non-blank content, and `ask` turns
    the fragments found for a question into the context handed to the
    generator. Saving the file, extracting its text and calling the generator
    are outside the model: the extracted text is a parameter of `Upload`, and
    `Ask` returns the context and question it would send. */
module App {
  import opened PyBuiltins
  import opened Faiss
  import opened VectorStore

  /** Fewest stripped code points an upload must have. */
  const MinReadableLength := 50

  /** How many fragments at most go into a prompt's context. */
  const ContextChunks := 3

  const NoReadableTextMessage := "PDF has no readable text (scanned PDF not supported)"
  const NoInformationAnswer := "No relevant information found in the document."

  datatype UploadReply = Rejected(message: string) | Indexed {
    /** The `status` field of the reply. */
    function Status(): string {
      if Rejected? then "error" else "PDF indexed successfully"
    }
  }

  /** `Answer` is a reply made without the generator; `Generate` stands for
      the request made to it. */
  datatype AskReply = Answer(text: string) | Generate(context: string, question: string)

  /** `not text or len(text.strip()) < 50`. */
  predicate Rejects(text: string) {
    |text| == 0 || |Strip(text)| < MinReadableLength
  }

  /** Blank text, whitespace only in any amount, is always rejected. */
  lemma BlankRejected(text: string)
    requires forall i :: 0 <= i < |text| ==> IsSpace(text[i])
    ensures Rejects(text)
  {
  }

  /** An admitted text is at least 50 long, so it makes at least one fragment. */
  lemma AdmittedMakesFragments(text: string)
    requires !Rejects(text)
    ensures |text| >= MinReadableLength
    ensures |Chunks(text)| >= 1
  {
  }

  /** `"\n".join(chunks[:3])`. */
  function Context(chunks: seq<string>): string {
    Join("\n", chunks[..Min(ContextChunks, |chunks|)])
  }

  /** The context holds the first min(3, len(chunks)) fragments in their
      order, each followed by a newline except the last, and ends with the
      last of them. */
  lemma ContextLayout(chunks: seq<string>, j: nat)
    requires j < Min(ContextChunks, |chunks|)
    ensures var used := chunks[..Min(ContextChunks, |chunks|)];
      && |Context(chunks)| == JoinOffset("\n", used, |used| - 1) + |used[|used| - 1]|
      && JoinOffset("\n", used, j) + |chunks[j]| <= |Context(chunks)|
      && Context(chunks)[JoinOffset("\n", used, j)..JoinOffset("\n", used, j) + |chunks[j]|] == chunks[j]
      && (j + 1 < |used| ==>
            Context(chunks)[JoinOffset("\n", used, j) + |chunks[j]|..JoinOffset("\n", used, j + 1)] == "\n")
  {
    var used := chunks[..Min(ContextChunks, |chunks|)];
    JoinLength("\n", used);
    JoinItem("\n", used, j);
    if j + 1 < |used| {
      JoinSeparator("\n", used, j);
    }
  }

  /** `upload`, from the extracted text on: rejected text leaves the store as
      it was; admitted text is added whole, once, and adds at least one
      fragment, whose concatenation is the text. */
  method Upload(store: Store, text: string) returns (reply: UploadReply)
    requires store.Valid()
    modifies store, store.index
    ensures store.Valid()
    ensures reply.Rejected? <==> Rejects(text)
    ensures reply.Rejected? ==> reply.message == NoReadableTextMessage && unchanged(store, store.index)
    ensures reply.Indexed? ==>
      && store.documents == old(store.documents) + Chunks(text)
      && store.index.vectors == old(store.index.vectors) + Encode(store.embed, Chunks(text))
      && |store.documents| > |old(store.documents)|
      && Concat(store.documents[|old(store.documents)|..]) == text
  {
    if Rejects(text) {
      return Rejected(NoReadableTextMessage);
    }
    store.AddText(text);
    AdmittedMakesFragments(text);
    ChunksConcat(text);
    assert store.documents[|old(store.documents)|..] == Chunks(text);
    reply := Indexed;
  }

  /** `ask`, up to the generator: the fixed answer exactly when the store is
      empty; otherwise the context of the fragments found with the default
      `k`. As `search` already returns at most 3 fragments, the `[:3]` keeps
      all of them. */
  method Ask(store: Store, question: string) returns (reply: AskReply)
    requires store.Valid()
    ensures reply.Answer? <==> |store.documents| == 0
    ensures reply.Answer? ==> reply.text == NoInformationAnswer
    ensures reply.Generate? ==>
      && reply.question == question
      && reply.context == Context(store.Retrieve(question, DefaultK))
      && reply.context == Join("\n", store.Retrieve(question, DefaultK))
      && 1 <= |store.Retrieve(question, DefaultK)| <= ContextChunks
  {
    var chunks := store.Search(question, DefaultK);
    if |chunks| == 0 {
      return Answer(NoInformationAnswer);
    }
    assert chunks[..Min(ContextChunks, |chunks|)] == chunks;
    reply := Generate(Context(chunks), question);
  }
}
