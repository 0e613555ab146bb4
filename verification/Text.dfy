/** Tokens and chunks (src/rag.cpp), over texts as byte strings. */
module Text {
  import opened Types

  /** isspace and tolower of the C locale. */
  predicate IsSpace(b: byte) { b == 32 || 9 <= b <= 13 }

  function Lower(b: byte): byte { if 65 <= b <= 90 then b + 32 else b }

  const SPACE: byte := 32
  const NEWLINE: byte := 10

  /** The six white-space characters, and the capital letters with their small ones 32 behind. */
  lemma Characters(b: byte)
    ensures IsSpace(b) <==> b in [9, 10, 11, 12, 13, 32]
    ensures 65 <= b <= 90 ==> Lower(b) == b + 32
    ensures b < 65 || b > 90 ==> Lower(b) == b
  {}

  // ---------------------------------------------------------------- tokens

  function Flush(cur: Str): seq<Str> { if cur == [] then [] else [cur] }

  /** The tokens of text when cur has been collected of the first. */
  function TokensFrom(cur: Str, text: Str): seq<Str>
    decreases |text|
  {
    if text == [] then Flush(cur)
    else if IsSpace(text[0]) then Flush(cur) + TokensFrom([], text[1..])
    else TokensFrom(cur + [Lower(text[0])], text[1..])
  }

  function Tokens(text: Str): seq<Str> { TokensFrom([], text) }

  /** tokenize */
  method Tokenize(text: Str) returns (tokens: seq<Str>)
    ensures tokens == Tokens(text)
  {
    tokens := [];
    var cur: Str := [];
    for i := 0 to |text|
      invariant tokens + TokensFrom(cur, text[i..]) == Tokens(text)
    {
      assert text[i..][1..] == text[i + 1..];
      if IsSpace(text[i]) {
        if cur != [] {
          tokens := tokens + [cur];
          cur := [];
        }
      } else {
        cur := cur + [Lower(text[i])];
      }
    }
    if cur != [] { tokens := tokens + [cur]; }
  }

  /** A possible token: not empty, without spaces, in lower case. */
  ghost predicate IsToken(t: Str) {
    t != [] && forall i | 0 <= i < |t| :: !IsSpace(t[i]) && Lower(t[i]) == t[i]
  }

  lemma {:induction false} TokensAreTokens(cur: Str, text: Str)
    requires cur == [] || IsToken(cur)
    ensures forall t | t in TokensFrom(cur, text) :: IsToken(t)
    decreases |text|
  {
    if text != [] {
      if IsSpace(text[0]) {
        TokensAreTokens([], text[1..]);
      } else {
        TokensAreTokens(cur + [Lower(text[0])], text[1..]);
      }
    }
  }

  /** A white space separates: the tokens on its two sides do not see each other. */
  lemma {:induction false} TokensSplit(cur: Str, a: Str, space: byte, b: Str)
    requires IsSpace(space)
    ensures TokensFrom(cur, a + [space] + b) == TokensFrom(cur, a) + Tokens(b)
    decreases |a|
  {
    var s := a + [space] + b;
    if a == [] {
      assert s[0] == space && s[1..] == b;
    } else {
      assert s[0] == a[0] && s[1..] == a[1..] + [space] + b;
      if IsSpace(a[0]) {
        TokensSplit([], a[1..], space, b);
      } else {
        TokensSplit(cur + [Lower(a[0])], a[1..], space, b);
      }
    }
  }

  ghost predicate IsWord(w: Str) { w != [] && forall i | 0 <= i < |w| :: !IsSpace(w[i]) }

  function Lowered(w: Str): Str { seq(|w|, i requires 0 <= i < |w| => Lower(w[i])) }

  lemma {:induction false} TokensOfWord(cur: Str, w: Str)
    requires forall i | 0 <= i < |w| :: !IsSpace(w[i])
    ensures TokensFrom(cur, w) == Flush(cur + Lowered(w))
    decreases |w|
  {
    if w == [] {
      assert cur + Lowered(w) == cur;
    } else {
      TokensOfWord(cur + [Lower(w[0])], w[1..]);
      assert cur + [Lower(w[0])] + Lowered(w[1..]) == cur + Lowered(w);
    }
  }

  lemma TokensExample()
    ensures Tokens([9, 65, 98, 13, 10, 90, 32]) == [[97, 98], [122]]
  {
    var a, z: Str := [65, 98], [90];
    assert [9, 65, 98, 13, 10, 90, 32] == ([] + [9] + (a + [13] + ([] + [10] + (z + [32] + []))));
    TokensSplit([], [], 9, a + [13] + ([] + [10] + (z + [32] + [])));
    TokensSplit([], a, 13, [] + [10] + (z + [32] + []));
    TokensSplit([], [], 10, z + [32] + []);
    TokensSplit([], z, 32, []);
    TokensOfWord([], a);
    TokensOfWord([], z);
    assert [] + Lowered(a) == [97, 98] && [] + Lowered(z) == [122];
  }

  // ---------------------------------------------------------------- joining

  function Join(tokens: seq<Str>): Str {
    if tokens == [] then []
    else if |tokens| == 1 then tokens[0]
    else tokens[0] + [SPACE] + Join(tokens[1..])
  }

  /** One space between two tokens, and none around them. */
  lemma JoinOfTwo(a: Str, b: Str)
    ensures Join([a, b]) == a + [32] + b && Join([a]) == a && Join([]) == []
  {
    assert [a, b][1..] == [b];
  }

  /** Tokenizing a joined list of words gives the words back, in lower case. */
  lemma {:induction false} TokensOfJoin(words: seq<Str>)
    requires forall w | w in words :: IsWord(w)
    ensures |Tokens(Join(words))| == |words|
    ensures forall i | 0 <= i < |words| :: Tokens(Join(words))[i] == Lowered(words[i])
  {
    if words != [] {
      assert words[0] in words;
      TokensOfWord([], words[0]);
      assert [] + Lowered(words[0]) == Lowered(words[0]);
      if |words| > 1 {
        TokensSplit([], words[0], SPACE, Join(words[1..]));
        TokensOfJoin(words[1..]);
      }
    }
  }

  /** tokenize undoes the joiner on any slice of tokens. */
  lemma JoinRoundTrip(tokens: seq<Str>)
    requires forall t | t in tokens :: IsToken(t)
    ensures Tokens(Join(tokens)) == tokens
  {
    TokensOfJoin(tokens);
    forall i | 0 <= i < |tokens|
      ensures Tokens(Join(tokens))[i] == tokens[i]
    {
      assert tokens[i] in tokens;
      assert Lowered(tokens[i]) == tokens[i];
    }
  }

  // ---------------------------------------------------------------- chunks

  datatype Chunk = Chunk(text: Str, start: nat, end: nat)

  function Window(window: nat): nat { if window == 0 then 1 else window }

  function Overlap(window: nat, overlap: nat): nat {
    if overlap >= Window(window) then Window(window) - 1 else overlap
  }

  /** Chunk i starts i steps in, ends a window later or at the end, and is its tokens joined. */
  ghost predicate IsChunk(c: Chunk, tokens: seq<Str>, start: nat, window: nat) {
    && c.start == start < |tokens| && c.end == (if start + window <= |tokens| then start + window else |tokens|)
    && c.text == Join(tokens[c.start..c.end])
  }

  /** How many windows of size w, step apart, it takes to cover n tokens. */
  function WindowCount(n: nat, w: nat, step: nat): nat
    requires step > 0
  {
    if n == 0 then 0 else 1 + ((if n > w then n - w else 0) + step - 1) / step
  }

  lemma CountReached(n: nat, w: nat, step: nat, i: nat)
    requires step > 0 && n > 0 && w > 0 && i * step < n && i * step + w >= n
    requires i > 0 ==> (i - 1) * step + w < n
    ensures WindowCount(n, w, step) == i + 1
  {
    var x := if n > w then n - w else 0;
    assert i == 0 ==> x == 0;
    assert i > 0 ==> (i - 1) * step == i * step - step;
    assert x <= i * step && (i > 0 ==> i * step < x + step);
    assert (x + step - 1) / step == i by {
      if i == 0 {
        assert (step - 1) / step == 0;
      } else {
        QuotientIs(x + step - 1, step, i);
      }
    }
  }

  lemma QuotientIs(a: nat, d: nat, q: nat)
    requires d > 0 && q * d <= a < q * d + d
    ensures a / d == q
  {
    var r := a / d;
    assert r * d <= a < r * d + d;
    assert r < q ==> (r + 1) * d <= q * d;
    assert r > q ==> (q + 1) * d <= r * d;
  }

  /** The windows before the last do not reach the end; the last one does. */
  ghost predicate AreChunks(chunks: seq<Chunk>, tokens: seq<Str>, w: nat, step: nat) {
    && (forall i | 0 <= i < |chunks| :: IsChunk(chunks[i], tokens, i * step, w))
    && (forall i | 0 <= i < |chunks| - 1 :: chunks[i].start + w < |tokens|)
  }

  /** What follows for the whole list of windows. */
  ghost predicate Covers(chunks: seq<Chunk>, tokens: seq<Str>, w: nat, o: nat) {
    && (forall i | 0 <= i < |chunks| - 1 :: chunks[i].end == chunks[i + 1].start + o)
    && (chunks != [] ==> chunks[0].start == 0 && chunks[|chunks| - 1].end == |tokens|)
    && (forall c | c in chunks :: c.start < c.end <= |tokens| && Tokens(c.text) == tokens[c.start..c.end])
  }

  lemma ChunksCover(chunks: seq<Chunk>, tokens: seq<Str>, w: nat, o: nat)
    requires o < w && chunks != [] && AreChunks(chunks, tokens, w, w - o)
    requires chunks[|chunks| - 1].end == |tokens| && forall t | t in tokens :: IsToken(t)
    ensures Covers(chunks, tokens, w, o) && |chunks| == WindowCount(|tokens|, w, w - o)
  {
    hide TokensFrom, Join, WindowCount;
    var step, last := w - o, |chunks| - 1;
    forall i | 0 <= i < last
      ensures chunks[i].end == chunks[i + 1].start + o
    {
      assert IsChunk(chunks[i], tokens, i * step, w) && IsChunk(chunks[i + 1], tokens, (i + 1) * step, w);
      assert (i + 1) * step == i * step + step;
    }
    forall c | c in chunks
      ensures c.start < c.end <= |tokens| && Tokens(c.text) == tokens[c.start..c.end]
    {
      var i :| 0 <= i < |chunks| && chunks[i] == c;
      assert IsChunk(chunks[i], tokens, i * step, w);
      JoinRoundTrip(tokens[c.start..c.end]);
    }
    assert IsChunk(chunks[0], tokens, 0 * step, w) && IsChunk(chunks[last], tokens, last * step, w);
    if last > 0 { assert IsChunk(chunks[last - 1], tokens, (last - 1) * step, w); }
    CountReached(|tokens|, w, step, last);
  }

  /**
   chunk_text: the windows, in order, cover every token; neighbours share exactly the overlap;
   the last one ends the text; and there are as many as the formula says.
   */
  method ChunkText(text: Str, window: nat, overlap: nat) returns (chunks: seq<Chunk>)
    ensures var w, o, tokens := Window(window), Overlap(window, overlap), Tokens(text);
            && |chunks| == WindowCount(|tokens|, w, w - o)
            && AreChunks(chunks, tokens, w, w - o) && Covers(chunks, tokens, w, o)
    ensures forall i | 0 <= i < |chunks| - 1 ::
              && chunks[i].end - chunks[i].start == (if window == 0 then 1 else window)
              && chunks[i].end - chunks[i + 1].start
                 == if overlap < window then overlap else if window == 0 then 0 else window - 1
    ensures forall i | 0 <= i < |chunks| ::
              0 <= chunks[i].start < chunks[i].end <= |Tokens(text)|
              && chunks[i].text == Join(Tokens(text)[chunks[i].start..chunks[i].end])
    ensures if Tokens(text) == [] then chunks == []
            else chunks != [] && chunks[0].start == 0 && chunks[|chunks| - 1].end == |Tokens(text)|
  {
    hide TokensFrom, Join, WindowCount, Covers, AreChunks;
    var tokens := Tokenize(text);
    var w, o := Window(window), Overlap(window, overlap);
    if tokens == [] {
      NoChunks(w, o);
      return [];
    }
    TokensAreTokens([], text);
    chunks := Windows(tokens, w, w - o);
    ChunksCover(chunks, tokens, w, o);
    ChunksInNumbers(chunks, tokens, w, o);
  }

  /** The loop of chunk_text. */
  method Windows(tokens: seq<Str>, w: nat, step: nat) returns (chunks: seq<Chunk>)
    requires tokens != [] && 0 < step <= w
    ensures chunks != [] && AreChunks(chunks, tokens, w, step) && chunks[|chunks| - 1].end == |tokens|
  {
    hide Join;
    chunks := [];
    var start := 0;
    while start < |tokens|
      invariant start == |chunks| * step < |tokens|
      invariant AreChunks(chunks, tokens, w, step) && forall c | c in chunks :: c.start + w < |tokens|
    {
      var end := if start + w <= |tokens| then start + w else |tokens|;
      var joined := JoinSlice(tokens, start, end);
      assert (|chunks| + 1) * step == start + step;
      assert forall i | 0 <= i < |chunks| :: chunks[i] in chunks;
      chunks := chunks + [Chunk(joined, start, end)];
      if end == |tokens| { return; }
      start := start + step;
    }
    assert false;
  }

  /** Length, overlap and place of each chunk. */
  lemma ChunksInNumbers(chunks: seq<Chunk>, tokens: seq<Str>, w: nat, o: nat)
    requires o < w && AreChunks(chunks, tokens, w, w - o) && Covers(chunks, tokens, w, o)
    ensures forall i | 0 <= i < |chunks| - 1 ::
              chunks[i].end - chunks[i].start == w && chunks[i].end - chunks[i + 1].start == o
    ensures forall i | 0 <= i < |chunks| ::
              chunks[i].start < chunks[i].end <= |tokens|
              && chunks[i].text == Join(tokens[chunks[i].start..chunks[i].end])
    ensures chunks != [] ==> chunks[0].start == 0 && chunks[|chunks| - 1].end == |tokens|
  {
    hide TokensFrom, Join;
    assert forall i | 0 <= i < |chunks| :: chunks[i] in chunks && IsChunk(chunks[i], tokens, i * (w - o), w);
  }

  /** The number of chunks, as a formula in the configuration alone. */
  lemma CountInNumbers(n: nat, window: nat, overlap: nat)
    ensures var w := Window(window);
            var step := w - Overlap(window, overlap);
            && (n == 0 ==> WindowCount(n, w, step) == 0)
            && (0 < n <= window ==> WindowCount(n, w, step) == 1)
            && (overlap < window < n ==>
                  WindowCount(n, w, step) == 1 + (n - window + (window - overlap) - 1) / (window - overlap))
            && (overlap >= window > 0 && window < n ==> WindowCount(n, w, step) == 1 + n - window)
            && (window == 0 ==> WindowCount(n, w, step) == n)
  {
    var step := Window(window) - Overlap(window, overlap);
    assert (step - 1) / step == 0;
  }

  lemma NoChunks(w: nat, o: nat)
    requires o < w
    ensures WindowCount(0, w, w - o) == 0 && AreChunks([], [], w, w - o) && Covers([], [], w, o)
  {}

  /** The joining loop of chunk_text. */
  method JoinSlice(tokens: seq<Str>, start: nat, end: nat) returns (joined: Str)
    requires start < end <= |tokens|
    ensures joined == Join(tokens[start..end])
  {
    joined := [];
    for i := start to end
      invariant joined == Join(tokens[start..i])
    {
      JoinSnoc(tokens[start..i], tokens[i]);
      assert tokens[start..i + 1] == tokens[start..i] + [tokens[i]];
      if i > start { joined := joined + [SPACE]; }
      joined := joined + tokens[i];
    }
  }

  lemma {:induction false} JoinSnoc(ts: seq<Str>, t: Str)
    ensures Join(ts + [t]) == if ts == [] then t else Join(ts) + [SPACE] + t
    decreases |ts|
  {
    if ts == [] {
      assert ts + [t] == [t];
    } else {
      assert (ts + [t])[1..] == ts[1..] + [t];
      JoinSnoc(ts[1..], t);
      if |ts| > 1 {
        assert ts[0] + [SPACE] + (Join(ts[1..]) + [SPACE] + t) == ts[0] + [SPACE] + Join(ts[1..]) + [SPACE] + t;
      } else {
        assert ts[1..] == [];
      }
    }
  }
}
