/** PromptBuilder::build (src/rag.cpp): the closest chunks that fit a token budget. */
module Prompt {
  import opened Types
  import opened Text

  function Ascii(s: string): Str { seq(|s|, i requires 0 <= i < |s| => (s[i] as int) % 256) }

  /** The sentence that opens every prompt, as its words. */
  const INTRO: seq<string> :=
    ["You", "are", "a", "helpful", "assistant.", "Answer", "using", "only", "the", "context", "below."]

  function Words(ws: seq<string>): seq<Str> { seq(|ws|, i requires 0 <= i < |ws| => Ascii(ws[i])) }

  function Intro(): Str { Join(Words(INTRO)) }

  function Head(): Str { Ascii("Context:") }

  /** One bullet per chunk, each on its line. */
  function Context(chunks: seq<Str>): Str {
    if chunks == [] then [] else Ascii("-") + [SPACE] + (chunks[0] + [NEWLINE] + Context(chunks[1..]))
  }

  function Ending(query: Str): Str {
    Ascii("Question:") + [SPACE] + (query + [NEWLINE] + Ascii("Answer:"))
  }

  /** Four parts, the first followed by an empty line. */
  function Framed(intro: Str, head: Str, context: Str, ending: Str): Str {
    intro + [NEWLINE] + ([] + [NEWLINE] + (head + [NEWLINE] + (context + [NEWLINE] + ending)))
  }

  function PromptText(query: Str, chunks: seq<Str>): Str {
    Framed(Intro(), Head(), Context(chunks), Ending(query))
  }

  function Cost(text: Str): nat { |Tokens(text)| }

  function Costs(chunks: seq<Str>): nat { if chunks == [] then 0 else Cost(chunks[0]) + Costs(chunks[1..]) }

  /** How many chunks, from the first, fit into what is available. */
  function Taken(chunks: seq<Str>, available: nat): (n: nat)
    ensures n <= |chunks|
  {
    if chunks == [] || Cost(chunks[0]) > available then 0
    else 1 + Taken(chunks[1..], available - Cost(chunks[0]))
  }

  const SCAFFOLD: nat := 24

  function Available(budget: nat, query: Str): nat {
    if budget > Cost(query) + SCAFFOLD then budget - (Cost(query) + SCAFFOLD) else 0
  }

  /** The chunks a prompt uses. */
  function Used(budget: nat, query: Str, chunks: seq<Str>): seq<Str> {
    chunks[..Taken(chunks, Available(budget, query))]
  }

  // ---------------------------------------------------------------- the template spelled out

  /** The prompt piece by piece: words with a space between them, line ends, bullets and query. */
  lemma TemplateText(query: Str, chunks: seq<Str>)
    ensures PromptText(query, chunks)
         == Join([Ascii("You"), Ascii("are"), Ascii("a"), Ascii("helpful"), Ascii("assistant."), Ascii("Answer"),
                  Ascii("using"), Ascii("only"), Ascii("the"), Ascii("context"), Ascii("below.")])
            + [10, 10] + (Ascii("Context:") + [10]) + Context(chunks)
            + ([10] + Ascii("Question:") + [32]) + query + ([10] + Ascii("Answer:"))
    ensures Context([]) == []
    ensures chunks != [] ==> Context(chunks) == Ascii("-") + [32] + (chunks[0] + [10] + Context(chunks[1..]))
  {
    hide Ascii, Join;
    IntroWords();
    Assembled(Intro(), Context(chunks), query, Head(), Ascii("Question:"), Ascii("Answer:"));
  }

  lemma IntroWords()
    ensures Words(INTRO)
         == [Ascii("You"), Ascii("are"), Ascii("a"), Ascii("helpful"), Ascii("assistant."), Ascii("Answer"),
             Ascii("using"), Ascii("only"), Ascii("the"), Ascii("context"), Ascii("below.")]
  {
    hide Ascii;
  }

  /** Letters are bytes. */
  lemma AsciiLetters()
    ensures Ascii("Answer:") == [65, 110, 115, 119, 101, 114, 58] && Ascii("-") == [45]
  {}

  // ---------------------------------------------------------------- counting tokens

  lemma CostOfWord(w: Str)
    requires IsWord(w)
    ensures Cost(w) == 1
  {
    TokensOfWord([], w);
  }

  lemma CostSplit(a: Str, space: byte, b: Str)
    requires IsSpace(space)
    ensures Cost(a + [space] + b) == Cost(a) + Cost(b)
  {
    TokensSplit([], a, space, b);
  }

  lemma {:induction false} CostOfContext(chunks: seq<Str>)
    ensures Cost(Context(chunks)) == Costs(chunks) + |chunks|
  {
    hide Tokens;
    if chunks == [] {
      NoCost();
    } else {
      CostOfContext(chunks[1..]);
      CostSplit(Ascii("-"), SPACE, chunks[0] + [NEWLINE] + Context(chunks[1..]));
      CostSplit(chunks[0], NEWLINE, Context(chunks[1..]));
      CostOfWord(Ascii("-"));
    }
  }

  lemma NoCost()
    ensures Cost([]) == 0
  {}

  lemma PlainWord(s: string)
    requires s != "" && forall j | 0 <= j < |s| :: 33 <= s[j] as int < 128
    ensures IsWord(Ascii(s))
  {}

  lemma IntroIsWords()
    ensures |INTRO| == 11 && forall i | 0 <= i < |INTRO| :: IsWord(Ascii(INTRO[i]))
  {
    hide Ascii, IsWord;
    PlainWord("You"); PlainWord("are"); PlainWord("a"); PlainWord("helpful"); PlainWord("assistant.");
    PlainWord("Answer"); PlainWord("using"); PlainWord("only"); PlainWord("the"); PlainWord("context");
    PlainWord("below.");
  }

  lemma CostOfIntro()
    ensures Cost(Intro()) == 11
  {
    hide TokensFrom, Join, Ascii, IsWord;
    IntroIsWords();
    WordsAreWords(INTRO);
    TokensOfJoin(Words(INTRO));
  }

  lemma WordsAreWords(ws: seq<string>)
    requires forall i | 0 <= i < |ws| :: IsWord(Ascii(ws[i]))
    ensures |Words(ws)| == |ws| && forall w | w in Words(ws) :: IsWord(w)
  {
    hide Ascii, IsWord;
  }

  lemma CostOfEnding(query: Str)
    ensures Cost(Ending(query)) == 2 + Cost(query)
  {
    hide Cost, Ascii;
    PlainWord("Question:");
    PlainWord("Answer:");
    CostSplit(Ascii("Question:"), SPACE, query + [NEWLINE] + Ascii("Answer:"));
    CostSplit(query, NEWLINE, Ascii("Answer:"));
    CostOfWord(Ascii("Question:"));
    CostOfWord(Ascii("Answer:"));
  }

  /** A prompt has 14 tokens of its own, the query's, the chunks', and one per bullet. */
  lemma PromptCost(query: Str, chunks: seq<Str>)
    ensures Cost(PromptText(query, chunks)) == 14 + Cost(query) + Costs(chunks) + |chunks|
  {
    hide Cost, Context, Ending, Intro, Head, Framed;
    FramedCost(Intro(), Head(), Context(chunks), Ending(query));
    CostOfIntro();
    CostOfHead();
    CostOfContext(chunks);
    CostOfEnding(query);
  }

  lemma CostOfHead()
    ensures Cost(Head()) == 1
  {
    hide Cost, Ascii;
    PlainWord("Context:");
    CostOfWord(Ascii("Context:"));
  }

  lemma FramedCost(intro: Str, head: Str, context: Str, ending: Str)
    ensures Cost(Framed(intro, head, context, ending)) == Cost(intro) + Cost(head) + Cost(context) + Cost(ending)
  {
    hide Cost;
    var body := context + [NEWLINE] + ending;
    var rest := head + [NEWLINE] + body;
    CostSplit(intro, NEWLINE, [] + [NEWLINE] + rest);
    CostSplit([], NEWLINE, rest);
    CostSplit(head, NEWLINE, body);
    CostSplit(context, NEWLINE, ending);
    NoCost();
  }

  // ---------------------------------------------------------------- the budget

  /** The chunks taken fit, and the next one would not. */
  lemma {:induction false} TakenFits(chunks: seq<Str>, available: nat)
    ensures var n := Taken(chunks, available);
            && Costs(chunks[..n]) <= available
            && (n < |chunks| ==> Costs(chunks[..n]) + Cost(chunks[n]) > available)
    decreases |chunks|
  {
    hide Tokens;
    if chunks != [] && Cost(chunks[0]) <= available {
      var n := Taken(chunks[1..], available - Cost(chunks[0]));
      TakenFits(chunks[1..], available - Cost(chunks[0]));
      assert chunks[..n + 1][1..] == chunks[1..][..n];
    } else {
      assert chunks[..0] == [];
    }
  }

  /** How many chunks, from the first, hold no token at all. */
  function LeadingBlanks(chunks: seq<Str>): (n: nat)
    ensures n <= |chunks|
  {
    if chunks == [] || Cost(chunks[0]) > 0 then 0 else 1 + LeadingBlanks(chunks[1..])
  }

  /** With nothing available only they are taken. */
  lemma {:induction false} NothingAvailable(chunks: seq<Str>)
    ensures Taken(chunks, 0) == LeadingBlanks(chunks) && Costs(chunks[..LeadingBlanks(chunks)]) == 0
  {
    hide Tokens;
    if chunks != [] && Cost(chunks[0]) == 0 {
      NothingAvailable(chunks[1..]);
      assert chunks[..LeadingBlanks(chunks)][1..] == chunks[1..][..LeadingBlanks(chunks[1..])];
    } else {
      assert chunks[..0] == [];
    }
  }

  ghost predicate Fits(budget: nat, query: Str, chunks: seq<Str>) {
    Cost(PromptText(query, Used(budget, query, chunks))) <= budget
  }

  /**
   The reserve of 24 holds the template's 14 tokens and ten bullets.  When the budget covers query
   and reserve, a prompt keeps within it exactly when its bullets are at most 10 more than the
   tokens left unused; below that, exactly when 14, the query and the blank chunks in front do.
   */
  lemma WithinBudgetIff(budget: nat, query: Str, chunks: seq<Str>)
    ensures Costs(Used(budget, query, chunks)) <= Available(budget, query)
    ensures budget >= Cost(query) + SCAFFOLD ==>
              var used := Used(budget, query, chunks);
              Fits(budget, query, chunks) <==> |used| <= 10 + (Available(budget, query) - Costs(used))
    ensures budget < Cost(query) + SCAFFOLD ==>
              (Fits(budget, query, chunks) <==> 14 + Cost(query) + LeadingBlanks(chunks) <= budget)
  {
    hide Tokens, PromptText;
    TakenFits(chunks, Available(budget, query));
    PromptCost(query, Used(budget, query, chunks));
    NothingAvailable(chunks);
  }

  /** The most chunks a caller may offer, whatever they are, knowing only budget and query. */
  function MaxChunks(budget: nat, query: Str): int {
    if budget >= Cost(query) + SCAFFOLD then 10 else budget - Cost(query) - 14
  }

  /** Every list of at most n chunks keeps the budget exactly when n is at most MaxChunks. */
  lemma BudgetKeptIff(budget: nat, query: Str, n: nat)
    ensures (forall chunks: seq<Str> | |chunks| <= n :: Fits(budget, query, chunks))
       <==> n <= MaxChunks(budget, query)
  {
    hide Cost, Fits;
    if n <= MaxChunks(budget, query) {
      forall chunks: seq<Str> | |chunks| <= n
        ensures Fits(budget, query, chunks)
      {
        FewChunksFit(budget, query, chunks);
      }
    } else {
      var chunks := Overrun(budget, query);
      assert |chunks| <= n && !Fits(budget, query, chunks);
    }
  }

  lemma FewChunksFit(budget: nat, query: Str, chunks: seq<Str>)
    requires |chunks| <= MaxChunks(budget, query)
    ensures Fits(budget, query, chunks)
  {
    hide Cost, Fits;
    WithinBudgetIff(budget, query, chunks);
  }

  function Repeated(n: nat, c: Str): (r: seq<Str>)
    ensures |r| == n && forall x | x in r :: x == c
  {
    seq(n, _ => c)
  }

  lemma {:induction false} CostsOfRepeated(n: nat, c: Str)
    ensures Costs(Repeated(n, c)) == n * Cost(c)
    ensures Cost(c) == 0 ==> LeadingBlanks(Repeated(n, c)) == n
  {
    hide Cost;
    if n != 0 {
      CostsOfRepeated(n - 1, c);
      assert Repeated(n, c)[0] == c && Repeated(n, c)[1..] == Repeated(n - 1, c);
      assert n * Cost(c) == (n - 1) * Cost(c) + Cost(c);
    }
  }

  /** A list whose costs fit is taken whole. */
  lemma AllTaken(chunks: seq<Str>, available: nat)
    requires Costs(chunks) <= available
    ensures Taken(chunks, available) == |chunks|
  {
    hide Cost;
    assert chunks[..|chunks|] == chunks && chunks[|chunks|..] == [];
    TakenSplit(chunks, available, |chunks|);
  }

  /** A text of n words. */
  function Filler(n: nat): Str { Join(seq(n, _ => Ascii("x"))) }

  lemma CostOfFiller(n: nat)
    ensures Cost(Filler(n)) == n
  {
    hide TokensFrom, Join, Ascii;
    var words: seq<Str> := seq(n, _ => Ascii("x"));
    PlainWord("x");
    TokensOfJoin(words);
  }

  /** Ten equal chunks and one that fills the rest. */
  lemma TenThenFiller(c: Str, rest: nat)
    ensures Costs(Repeated(10, c) + [Filler(rest)]) == 10 * Cost(c) + rest
  {
    hide Cost, Filler;
    CostsOfRepeated(10, c);
    CostOfFiller(rest);
    CostsSnoc(Repeated(10, c), Filler(rest));
  }

  /** At every budget, some list one longer than MaxChunks overruns it. */
  lemma Overrun(budget: nat, query: Str) returns (chunks: seq<Str>)
    ensures |chunks| == if MaxChunks(budget, query) < 0 then 0 else MaxChunks(budget, query) + 1
    ensures !Fits(budget, query, chunks)
  {
    NoCost();
    hide Cost, Filler, Repeated, Fits;
    var available, most := Available(budget, query), MaxChunks(budget, query);
    if budget >= Cost(query) + SCAFFOLD {
      chunks := Repeated(10, []) + [Filler(available)];
      TenThenFiller([], available);
      AllTaken(chunks, available);
      assert chunks[..11] == chunks;
    } else {
      chunks := Repeated(if most < 0 then 0 else most + 1, []);
      CostsOfRepeated(|chunks|, []);
    }
    WithinBudgetIff(budget, query, chunks);
  }

  // ---------------------------------------------------------------- chunks with a token

  /** Every chunk holds a token, as those of a document do. */
  ghost predicate NoneBlank(chunks: seq<Str>) { forall c | c in chunks :: Cost(c) > 0 }

  lemma {:induction false} CountWithinCosts(chunks: seq<Str>)
    requires NoneBlank(chunks)
    ensures |chunks| <= Costs(chunks)
  {
    hide Cost;
    if chunks != [] { CountWithinCosts(chunks[1..]); }
  }

  /** Whether every list of at most n chunks that hold a token keeps the budget, knowing only budget and query. */
  predicate Suffices(budget: nat, query: Str, n: nat) {
    budget >= Cost(query) + 14 && (n <= 10 || budget <= Cost(query) + 34)
  }

  lemma NoneBlankFits(budget: nat, query: Str, chunks: seq<Str>)
    requires NoneBlank(chunks) && Suffices(budget, query, |chunks|)
    ensures Fits(budget, query, chunks)
  {
    hide Cost, Fits;
    var used := Used(budget, query, chunks);
    assert NoneBlank(used);
    CountWithinCosts(used);
    WithinBudgetIff(budget, query, chunks);
    assert chunks != [] ==> chunks[0] in chunks;
  }

  /** Ten one-word chunks and one that fills the rest overrun every budget above query + 34. */
  lemma NoneBlankOverrun(budget: nat, query: Str) returns (chunks: seq<Str>)
    requires budget > Cost(query) + 34
    ensures |chunks| == 11 && NoneBlank(chunks) && !Fits(budget, query, chunks)
  {
    hide Cost, Filler, Repeated, Fits;
    var available := Available(budget, query);
    CostOfFiller(1);
    CostOfFiller(available - 10);
    chunks := Repeated(10, Filler(1)) + [Filler(available - 10)];
    TenThenFiller(Filler(1), available - 10);
    AllTaken(chunks, available);
    assert chunks[..11] == chunks;
    WithinBudgetIff(budget, query, chunks);
  }

  /** For chunks that hold a token: all lists of at most n keep the budget exactly then. */
  lemma NoneBlankBudgetIff(budget: nat, query: Str, n: nat)
    ensures (forall chunks: seq<Str> | |chunks| <= n && NoneBlank(chunks) :: Fits(budget, query, chunks))
       <==> Suffices(budget, query, n)
  {
    hide Cost, Fits;
    if Suffices(budget, query, n) {
      forall chunks: seq<Str> | |chunks| <= n && NoneBlank(chunks)
        ensures Fits(budget, query, chunks)
      {
        NoneBlankFits(budget, query, chunks);
      }
    } else if budget < Cost(query) + 14 {
      var none: seq<Str> := [];
      WithinBudgetIff(budget, query, none);
      assert |none| <= n && NoneBlank(none) && !Fits(budget, query, none);
    } else {
      var chunks := NoneBlankOverrun(budget, query);
      assert |chunks| <= n && !Fits(budget, query, chunks);
    }
  }

  // ---------------------------------------------------------------- the code

  lemma {:induction false} ContextSnoc(chunks: seq<Str>, c: Str)
    ensures Context(chunks + [c]) == Context(chunks) + (Ascii("- ") + c + [NEWLINE])
  {
    assert Ascii("- ") == Ascii("-") + [SPACE];
    if chunks == [] {
      assert chunks + [c] == [c];
    } else {
      ContextSnoc(chunks[1..], c);
      assert (chunks + [c])[1..] == chunks[1..] + [c];
    }
  }

  lemma {:induction false} TakenSplit(chunks: seq<Str>, available: nat, i: nat)
    requires i <= |chunks| && Costs(chunks[..i]) <= available
    ensures Taken(chunks, available) == i + Taken(chunks[i..], available - Costs(chunks[..i]))
    decreases i
  {
    hide Tokens;
    if i == 0 {
      assert chunks[0..] == chunks;
    } else {
      assert chunks[..i][1..] == chunks[1..][..i - 1];
      TakenSplit(chunks[1..], available - Cost(chunks[0]), i - 1);
      assert chunks[1..][i - 1..] == chunks[i..];
    }
  }

  lemma {:induction false} CostsSnoc(chunks: seq<Str>, c: Str)
    ensures Costs(chunks + [c]) == Costs(chunks) + Cost(c)
  {
    hide Tokens;
    if chunks == [] {
      assert chunks + [c] == [c];
    } else {
      CostsSnoc(chunks[1..], c);
      assert (chunks + [c])[1..] == chunks[1..] + [c];
    }
  }

  /** The loop of build: bullets for the first chunks, up to the first that does not fit. */
  method BuildContext(chunks: seq<Str>, available: nat) returns (context: Str)
    ensures context == Context(chunks[..Taken(chunks, available)])
  {
    hide TokensFrom, Ascii;
    context := [];
    var used, i := 0, 0;
    while i < |chunks|
      invariant i <= |chunks| && context == Context(chunks[..i]) && used == Costs(chunks[..i]) <= available
      invariant Taken(chunks, available) == i + Taken(chunks[i..], available - used)
    {
      var c := chunks[i];
      var t := Tokenize(c);
      if used + |t| > available { break; }
      assert chunks[..i + 1] == chunks[..i] + [c];
      ContextSnoc(chunks[..i], c);
      CostsSnoc(chunks[..i], c);
      TakenSplit(chunks, available, i + 1);
      context := context + (Ascii("- ") + c + [NEWLINE]);
      used, i := used + |t|, i + 1;
    }
  }

  /** build: greedily the first chunks, up to the first that does not fit. */
  method Build(budget: nat, query: Str, chunks: seq<Str>) returns (prompt: Str)
    ensures prompt == PromptText(query, Used(budget, query, chunks))
  {
    hide TokensFrom, Join, Words, Context, Taken, Ascii, Framed;
    var q := Tokenize(query);
    var reserved := |q| + SCAFFOLD;
    var available := if budget > reserved then budget - reserved else 0;
    var context := BuildContext(chunks, available);
    prompt := Join(Words(INTRO)) + [NEWLINE, NEWLINE];
    prompt := prompt + (Ascii("Context:") + [NEWLINE]);
    prompt := prompt + context;
    prompt := prompt + ([NEWLINE] + Ascii("Question:") + [SPACE]);
    prompt := prompt + query;
    prompt := prompt + ([NEWLINE] + Ascii("Answer:"));
    Assembled(Join(Words(INTRO)), context, query, Ascii("Context:"), Ascii("Question:"), Ascii("Answer:"));
  }

  lemma Assembled(intro: Str, context: Str, query: Str, c: Str, q: Str, a: Str)
    ensures intro + [NEWLINE, NEWLINE] + (c + [NEWLINE]) + context + ([NEWLINE] + q + [SPACE]) + query + ([NEWLINE] + a)
         == Framed(intro, c, context, q + [SPACE] + (query + [NEWLINE] + a))
  {}
}
