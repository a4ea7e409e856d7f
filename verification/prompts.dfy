/**
 * The sidecar's prompt builders, `python/sidecar/ai/prompts.py`: the rewrite
 * prompt, the text-completion prompt with its optional title and abstract
 * lines, the source list built from retrieved chunks, and the chat prompt.
 */
module Prompts {
  import opened Wrappers
  import opened Strings
  import opened ReferenceSchemas

  // ---------------------------------------------------------------- rewrite

  const RewriteOpening := "Please rewrite the following text in a more "
  const RewriteClosing := " manner. Do not make up facts.\nTEXT: "

  /** `create_prompt_for_rewrite`: the manner word inside a fixed instruction, then the text. */
  function CreatePromptForRewrite(text: string, manner: string): string {
    RewriteOpening + manner + RewriteClosing + text
  }

  /** The manner sits right after the fixed opening, and the prompt ends with `TEXT: ` and the text. */
  lemma RewritePromptLayout(text: string, manner: string)
    ensures var p := CreatePromptForRewrite(text, manner);
      && StartsWith(p, RewriteOpening)
      && p[|RewriteOpening|..|RewriteOpening| + |manner|] == manner
      && EndsWith(p, "TEXT: " + text)
  {
    ConcatAssoc(RewriteOpening, manner, RewriteClosing);
    ConcatAssoc(RewriteOpening, manner + RewriteClosing, text);
    ConcatAssoc(manner, RewriteClosing, text);
    Infix(RewriteOpening, manner, RewriteClosing + text);
    ConcatParts(RewriteOpening, manner + (RewriteClosing + text));
    ConcatAssoc(" manner. Do not make up facts.\n", "TEXT: ", text);
    ConcatAssoc(RewriteOpening + manner, " manner. Do not make up facts.\n", "TEXT: " + text);
    ConcatParts(RewriteOpening + manner + " manner. Do not make up facts.\n", "TEXT: " + text);
  }

  /** For one manner, the text is recovered from the prompt: different texts give different prompts. */
  lemma RewritePromptInjective(text1: string, text2: string, manner: string)
    ensures CreatePromptForRewrite(text1, manner) == CreatePromptForRewrite(text2, manner) <==> text1 == text2
  {
    var prefix := RewriteOpening + manner + RewriteClosing;
    if CreatePromptForRewrite(text1, manner) == CreatePromptForRewrite(text2, manner) {
      ConcatParts(prefix, text1);
      ConcatParts(prefix, text2);
    }
  }

  // -------------------------------------------------------- text completion

  /** A text-completion request: the text to continue and the document's optional title and abstract. */
  datatype TextCompletionRequest = TextCompletionRequest(text: string, title: Option<string>, abstractText: Option<string>)

  /** Python truthiness of an optional string: present and not empty. */
  predicate Truthy(s: Option<string>) {
    s.Some? && s.value != ""
  }

  const PreambleOpening := "I am a researcher at a university. You are my research assistant. "
  const PreambleClosing := "I am writing a document. \n"
  const Preamble := PreambleOpening + PreambleClosing
  const TitleTag := "TITLE: \""
  const AbstractTag := "ABSTRACT: \""
  const InstructionsOpening := "Please help me complete " + "the portion of text input below. "
  const InstructionsClosing := "Use complete sentences and proper grammer. \n"
  const Instructions := InstructionsOpening + InstructionsClosing

  function TitleLine(title: string): string {
    TitleTag + (Strip(title) + "\" \n")
  }

  function AbstractLine(abstractText: string): string {
    AbstractTag + (Strip(abstractText) + "\" \n")
  }

  function InputLine(text: string): string {
    "INPUT: " + Strip(text) + " [MASK]"
  }

  function TitlePart(request: TextCompletionRequest): string {
    if Truthy(request.title) then TitleLine(request.title.value) else ""
  }

  function AbstractPart(request: TextCompletionRequest): string {
    if Truthy(request.abstractText) then AbstractLine(request.abstractText.value) else ""
  }

  /** What follows the abstract line, if any: the instructions and the stripped input with the mask. */
  function Closing(request: TextCompletionRequest): string {
    Instructions + InputLine(request.text)
  }

  /** The prompt `create_prompt_for_text_completion` assembles, as one expression. */
  function TextCompletionPrompt(request: TextCompletionRequest): string {
    Preamble + (TitlePart(request) + (AbstractPart(request) + Closing(request)))
  }

  /** Where the abstract line, if any, begins: after the preamble and the title line, if any. */
  function AbstractOffset(request: TextCompletionRequest): nat {
    |Preamble| + |TitlePart(request)|
  }

  /** `create_prompt_for_text_completion`: the prompt is built up piece by piece. */
  method CreatePromptForTextCompletion(request: TextCompletionRequest) returns (prompt: string)
    ensures prompt == TextCompletionPrompt(request)
  {
    ghost var closing := Closing(request);
    ghost var afterTitle := AbstractPart(request) + closing;
    prompt := PreambleOpening;
    prompt := prompt + PreambleClosing;
    if Truthy(request.title) {
      ConcatAssoc(prompt, TitleLine(request.title.value), afterTitle);
      prompt := prompt + TitleLine(request.title.value);
    } else {
      ConcatEmpty(TitlePart(request), afterTitle);
    }
    if Truthy(request.abstractText) {
      ConcatAssoc(prompt, AbstractLine(request.abstractText.value), closing);
      prompt := prompt + AbstractLine(request.abstractText.value);
    } else {
      ConcatEmpty(AbstractPart(request), closing);
    }
    ConcatAssoc(prompt, InstructionsOpening, InstructionsClosing);
    ConcatAssoc(prompt, Instructions, InputLine(request.text));
    prompt := prompt + InstructionsOpening;
    prompt := prompt + InstructionsClosing;
    prompt := prompt + InputLine(request.text);
  }

  /** Every completion prompt opens with the preamble and closes with the stripped input and the mask. */
  lemma TextCompletionFrame(request: TextCompletionRequest)
    ensures StartsWith(TextCompletionPrompt(request), Preamble)
    ensures EndsWith(TextCompletionPrompt(request), "INPUT: " + Strip(request.text) + " [MASK]")
  {
    var t, a, tail := TitlePart(request), AbstractPart(request), InputLine(request.text);
    ConcatParts(Preamble, t + (a + Closing(request)));
    ConcatAssoc(a, Instructions, tail);
    ConcatAssoc(t, a + Instructions, tail);
    ConcatAssoc(Preamble, t + (a + Instructions), tail);
    ConcatParts(Preamble + (t + (a + Instructions)), tail);
  }

  /** What follows an omitted line starts with the abstract tag or with the instructions. */
  lemma NextSectionStart(request: TextCompletionRequest)
    ensures |AbstractPart(request) + Closing(request)| > 0
    ensures (AbstractPart(request) + Closing(request))[0] == if Truthy(request.abstractText) then 'A' else 'P'
    ensures |Closing(request)| > 0 && Closing(request)[0] == 'P'
  {
    var opening1, opening2 := "Please help me complete ", "the portion of text input below. ";
    FirstOf(opening1, opening2);
    FirstOf(InstructionsOpening, InstructionsClosing);
    FirstOf(Instructions, InputLine(request.text));
    if Truthy(request.abstractText) {
      var line := AbstractLine(request.abstractText.value);
      FirstOf(AbstractTag, Strip(request.abstractText.value) + "\" \n");
      FirstOf(line, Closing(request));
    } else {
      ConcatEmpty(AbstractPart(request), Closing(request));
    }
  }

  /** The title line follows the preamble exactly when the title is truthy. */
  lemma TitleLineIff(request: TextCompletionRequest)
    ensures StartsWith(TextCompletionPrompt(request)[|Preamble|..], TitleTag) <==> Truthy(request.title)
    ensures Truthy(request.title) ==>
      TextCompletionPrompt(request)[|Preamble|..AbstractOffset(request)] == TitleLine(request.title.value)
  {
    var t, rest := TitlePart(request), AbstractPart(request) + Closing(request);
    ConcatParts(Preamble, t + rest);
    if Truthy(request.title) {
      TitleLinePresent(request, t, rest);
    } else {
      ConcatEmpty(t, rest);
      NextSectionStart(request);
      FirstCharDiffers(rest, TitleTag);
    }
  }

  lemma TitleLinePresent(request: TextCompletionRequest, t: string, rest: string)
    requires Truthy(request.title)
    requires t == TitlePart(request) && rest == AbstractPart(request) + Closing(request)
    ensures StartsWith(t + rest, TitleTag)
    ensures TextCompletionPrompt(request)[|Preamble|..AbstractOffset(request)] == t
  {
    Infix(Preamble, t, rest);
    var stripped := Strip(request.title.value) + "\" \n";
    ConcatAssoc(TitleTag, stripped, rest);
    ConcatParts(TitleTag, stripped + rest);
  }

  /** The abstract line comes after the title line, if any, exactly when the abstract is truthy. */
  lemma AbstractLineIff(request: TextCompletionRequest)
    ensures AbstractOffset(request) <= |TextCompletionPrompt(request)|
    ensures StartsWith(TextCompletionPrompt(request)[AbstractOffset(request)..], AbstractTag) <==> Truthy(request.abstractText)
  {
    var a, c := AbstractPart(request), Closing(request);
    AfterTitle(request);
    if Truthy(request.abstractText) {
      var stripped := Strip(request.abstractText.value) + "\" \n";
      ConcatAssoc(AbstractTag, stripped, c);
      ConcatParts(AbstractTag, stripped + c);
    } else {
      ConcatEmpty(a, c);
      NextSectionStart(request);
      FirstCharDiffers(c, AbstractTag);
    }
  }

  /** The prompt is the preamble and title line, if any, followed by the abstract line, if any, and the closing. */
  lemma AfterTitle(request: TextCompletionRequest)
    ensures TextCompletionPrompt(request) == (Preamble + TitlePart(request)) + (AbstractPart(request) + Closing(request))
    ensures |Preamble + TitlePart(request)| == AbstractOffset(request)
    ensures AbstractOffset(request) <= |TextCompletionPrompt(request)|
    ensures TextCompletionPrompt(request)[AbstractOffset(request)..] == AbstractPart(request) + Closing(request)
  {
    var head, rest := Preamble + TitlePart(request), AbstractPart(request) + Closing(request);
    ConcatAssoc(Preamble, TitlePart(request), rest);
    ConcatParts(Preamble, TitlePart(request));
    ConcatParts(head, rest);
  }

  /** When the abstract is truthy, its line sits at the abstract offset, right after the title line, if any. */
  lemma AbstractLineAt(request: TextCompletionRequest, line: string)
    requires Truthy(request.abstractText) && line == AbstractLine(request.abstractText.value)
    ensures TextCompletionPrompt(request)[AbstractOffset(request)..AbstractOffset(request) + |line|] == line
  {
    AfterTitle(request);
    SliceAt(TextCompletionPrompt(request), Preamble + TitlePart(request), line, Closing(request), AbstractOffset(request));
  }

  /** The middle part of `head + (a + c)`, found at offset `|head|`. */
  lemma SliceAt(p: string, head: string, a: string, c: string, at: nat)
    requires p == head + (a + c) && |head| == at
    ensures p[at..at + |a|] == a
  {
    Infix(head, a, c);
  }

  // ---------------------------------------------------------- source chunks

  /** One retrieved chunk as a source line: file name, page number and text. */
  function ChunkLine(chunk: Chunk): string {
    "\nSource: " + chunk.sourceFilename + ", p" + IntToString(chunk.pageNum) + " - " + chunk.text + "\n"
  }

  /** The source lines of the chunks, concatenated in input order. */
  function ChunksContext(chunks: seq<Chunk>): (text: string)
    ensures text == "" <==> chunks == []
  {
    if chunks == [] then "" else ChunksContext(chunks[..|chunks| - 1]) + ChunkLine(chunks[|chunks| - 1])
  }

  /** `prepare_chunks_for_prompt`: accumulate one source line per chunk. */
  method PrepareChunksForPrompt(chunks: seq<Chunk>) returns (text: string)
    ensures text == ChunksContext(chunks)
  {
    text := "";
    for i := 0 to |chunks|
      invariant text == ChunksContext(chunks[..i])
    {
      assert chunks[..i + 1][..i] == chunks[..i];
      var sourceStr := "\nSource: " + chunks[i].sourceFilename + ", p" + IntToString(chunks[i].pageNum);
      text := text + (sourceStr + " - " + chunks[i].text + "\n");
    }
    assert chunks[..|chunks|] == chunks;
  }

  /** The context of two runs of chunks is the context of the first followed by that of the second. */
  lemma {:induction false} ChunksContextAppend(a: seq<Chunk>, b: seq<Chunk>)
    ensures ChunksContext(a + b) == ChunksContext(a) + ChunksContext(b)
  {
    if b == [] {
      assert a + b == a;
      ConcatEmpty(ChunksContext(b), ChunksContext(a));
    } else {
      var init, last := b[..|b| - 1], b[|b| - 1];
      assert (a + b)[..|a + b| - 1] == a + init;
      assert (a + b)[|a + b| - 1] == last;
      ChunksContextAppend(a, init);
      ConcatAssoc(ChunksContext(a), ChunksContext(init), ChunkLine(last));
    }
  }

  /** A chunk in front contributes its source line in front: with the append law, every chunk appears once, in order. */
  lemma ChunksContextCons(c: Chunk, rest: seq<Chunk>)
    ensures ChunksContext([c] + rest) == ChunkLine(c) + ChunksContext(rest)
  {
    ChunksContextAppend([c], rest);
    assert [c][..0] == [];
    ConcatEmpty(ChunksContext([]), ChunkLine(c));
  }

  // ------------------------------------------------------------------- chat

  const ChatInstructions :=
    "Please answer the question below based solely on the provided"
    + " sources. "
    + "When referencing information from one of the provided"
    + " sources, "
    + "cite the appropriate source(s) using its filename and page number. "
    + "Every answer should include at least one citation. "
    + "If none of the sources are relevant to the question, "
    + "you should indicate that you are unable to answer "
    + "the question with the sources that have been provided.\n"
    + "When answering, please use complete sentences and proper grammar.\n"
    + "For example:\n"
    + "Source: world-capitals.pdf, p1 - The capital of the United States is Washington, D.C.\n"
    + "Source: world-capitals.pdf, p2 - Rome is the capital of Italy.\n"
    + "Question: What is the capital of the United States?\n"
    + "Answer: The capital of the United States is Washington, D.C. (world-capitals.pdf, p1)"

  const Separator := "\n---------\n"

  function QuestionTail(query: string): string {
    "\nQuestion: " + query + "\nAnswer: "
  }

  /** `create_prompt_for_chat`: instructions, the context between two separators, then the question. */
  function CreatePromptForChat(query: string, context: string): string {
    ChatInstructions + Separator + context + (Separator + "\nQuestion: " + query + "\nAnswer: ")
  }

  /** The context sits between the two separators, and the prompt ends with the question and `Answer: `. */
  lemma ChatPromptLayout(query: string, context: string)
    ensures var p := CreatePromptForChat(query, context);
      var at := |ChatInstructions| + |Separator|;
      && |p| == at + |context| + |Separator| + |QuestionTail(query)|
      && StartsWith(p, ChatInstructions)
      && p[|ChatInstructions|..at] == Separator
      && p[at..at + |context|] == context
      && p[at + |context|..at + |context| + |Separator|] == Separator
      && EndsWith(p, "\nQuestion: " + query + "\nAnswer: ")
  {
    ConcatAssoc(ChatInstructions + Separator + context, Separator, QuestionTail(query));
    ConcatAssoc(Separator, "\nQuestion: " + query, "\nAnswer: ");
    ConcatAssoc(Separator, "\nQuestion: ", query);
    Sandwich(ChatInstructions, Separator, context, Separator, QuestionTail(query));
  }

  /** The layout of any five concatenated strings, positions of each part. */
  lemma Sandwich(a: string, b: string, c: string, d: string, e: string)
    ensures var p := a + b + c + d + e;
      && |p| == |a| + |b| + |c| + |d| + |e|
      && StartsWith(p, a)
      && p[|a|..|a| + |b|] == b
      && p[|a| + |b|..|a| + |b| + |c|] == c
      && p[|a| + |b| + |c|..|a| + |b| + |c| + |d|] == d
      && EndsWith(p, e)
  {
    var p := a + b + c + d + e;
    assert p[..|a|] == a;
    assert p[|a|..|a| + |b|] == (a + b)[|a|..];
    assert p[|a| + |b|..|a| + |b| + |c|] == (a + b + c)[|a| + |b|..];
    assert p[|a| + |b| + |c|..|a| + |b| + |c| + |d|] == (a + b + c + d)[|a| + |b| + |c|..];
  }

  /** For one query the context is recovered from the prompt, and for one context the query. */
  lemma ChatPromptInjective(query1: string, context1: string, query2: string, context2: string)
    requires CreatePromptForChat(query1, context1) == CreatePromptForChat(query2, context2)
    ensures query1 == query2 <==> context1 == context2
  {
    SandwichInjective(ChatInstructions + Separator, Separator + "\nQuestion: ", "\nAnswer: ", context1, query1, context2, query2);
  }

  /** Two strings `head + c + mid + q + tail` that are equal have equal `c` exactly when they have equal `q`. */
  lemma SandwichInjective(head: string, mid: string, tail: string, c1: string, q1: string, c2: string, q2: string)
    requires head + c1 + (mid + q1 + tail) == head + c2 + (mid + q2 + tail)
    ensures q1 == q2 <==> c1 == c2
  {
    var p := head + c1 + (mid + q1 + tail);
    var p2 := head + c2 + (mid + q2 + tail);
    if q1 == q2 {
      assert |c1| == |c2|;
      assert c1 == p[|head|..|head| + |c1|];
      assert c2 == p2[|head|..|head| + |c2|];
    }
    if c1 == c2 {
      assert |q1| == |q2|;
      var at := |head| + |c1| + |mid|;
      assert q1 == p[at..at + |q1|];
      assert q2 == p2[at..at + |q2|];
    }
  }
}
