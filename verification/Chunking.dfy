/**
 ChunkText of internal/indexer/indexer.go: cutting a text into passages of at
 most maxWords words.
 */
module Chunking {

  /** unicode.IsSpace: the Latin-1 spaces and the code points of property White_Space beyond. */
  predicate IsSpace(c: char) {
    || '\t' <= c <= '\r' || c == ' ' || c == '\U{85}' || c == '\U{A0}'
    || c == '\U{1680}' || '\U{2000}' <= c <= '\U{200A}'
    || c == '\U{2028}' || c == '\U{2029}' || c == '\U{202F}' || c == '\U{205F}' || c == '\U{3000}'
  }

  // ---- Words ----

  /** The length of the run of non-spaces at the start. */
  function WordLength(s: string): (k: nat)
    ensures k <= |s|
    ensures forall i :: 0 <= i < k ==> !IsSpace(s[i])
    ensures k < |s| ==> IsSpace(s[k])
  {
    if s == "" || IsSpace(s[0]) then 0 else 1 + WordLength(s[1..])
  }

  /** strings.FieldsFunc with unicode.IsSpace: the maximal runs of non-spaces. */
  function Fields(s: string): seq<string>
    decreases |s|
  {
    if s == "" then []
    else if IsSpace(s[0]) then Fields(s[1..])
    else [s[..WordLength(s)]] + Fields(s[WordLength(s)..])
  }

  predicate IsWord(w: string) {
    w != "" && forall i :: 0 <= i < |w| ==> !IsSpace(w[i])
  }

  predicate AllWords(ws: seq<string>) {
    forall i :: 0 <= i < |ws| ==> IsWord(ws[i])
  }

  /** strings.Join with a single blank. */
  function Join(ws: seq<string>): string {
    if ws == [] then ""
    else if |ws| == 1 then ws[0]
    else ws[0] + " " + Join(ws[1..])
  }

  lemma {:induction false} FieldsAreWords(s: string)
    ensures AllWords(Fields(s))
    ensures 2 * |Fields(s)| <= |s| + 1
    decreases |s|
  {
    if s != "" {
      if IsSpace(s[0]) {
        FieldsAreWords(s[1..]);
      } else {
        var rest := s[WordLength(s)..];
        FieldsAreWords(rest);
        if rest != "" {
          assert Fields(rest) == Fields(rest[1..]);
          FieldsAreWords(rest[1..]);
        }
      }
    }
  }

  lemma WordLengthOfWord(w: string, rest: string)
    requires IsWord(w) && (rest == "" || IsSpace(rest[0]))
    ensures WordLength(w + rest) == |w|
  {
    var s := w + rest;
    var k := WordLength(s);
    assert forall i :: 0 <= i < |w| ==> s[i] == w[i];
    assert rest != "" ==> s[|w|] == rest[0];
  }

  /** Splitting what was joined gives the words back. */
  lemma {:induction false} SplitOfJoin(ws: seq<string>)
    requires AllWords(ws)
    ensures Fields(Join(ws)) == ws
  {
    if ws != [] {
      var w, s := ws[0], Join(ws);
      if |ws| == 1 {
        assert w + "" == w;
        WordLengthOfWord(w, "");
        assert s[|w|..] == "" && ws == [w];
      } else {
        var rest := " " + Join(ws[1..]);
        assert s == w + rest;
        WordLengthOfWord(w, rest);
        assert s[..|w|] == w && s[|w|..] == rest && rest[1..] == Join(ws[1..]);
        SplitOfJoin(ws[1..]);
        assert ws == [w] + ws[1..];
      }
    }
  }

  lemma {:induction false} JoinOfConcat(a: seq<string>, b: seq<string>)
    requires a != [] && b != []
    ensures Join(a + b) == Join(a) + " " + Join(b)
  {
    if |a| == 1 {
      assert (a + b)[1..] == b;
    } else {
      assert (a + b)[1..] == a[1..] + b;
      JoinOfConcat(a[1..], b);
      assert a[0] + " " + (Join(a[1..]) + " " + Join(b)) == a[0] + " " + Join(a[1..]) + " " + Join(b);
    }
  }

  // ---- The words of a text, by position ----

  /** s[a..b] is a maximal run of non-spaces. */
  ghost predicate IsRun(s: string, a: int, b: int) {
    && 0 <= a < b <= |s|
    && (forall i :: a <= i < b ==> !IsSpace(s[i]))
    && (a == 0 || IsSpace(s[a - 1]))
    && (b == |s| || IsSpace(s[b]))
  }

  /** A run starts at a. */
  ghost predicate IsStart(s: string, a: int) {
    0 <= a < |s| && !IsSpace(s[a]) && (a == 0 || IsSpace(s[a - 1]))
  }

  /** Word k is the run of s that starts at starts[k], and the starts increase from p on. */
  ghost predicate WordsAt(s: string, p: int, ws: seq<string>, starts: seq<int>) {
    && |starts| == |ws|
    && (forall k {:trigger ws[k]} {:trigger starts[k]} :: 0 <= k < |ws| ==>
          && p <= starts[k] && IsRun(s, starts[k], starts[k] + |ws[k]|)
          && ws[k] == s[starts[k]..starts[k] + |ws[k]|])
    && (forall k, l :: 0 <= k < l < |starts| ==> starts[k] < starts[l])
  }

  /** Every run from p on is one of the words. */
  ghost predicate HasAllRuns(s: string, p: int, ws: seq<string>, starts: seq<int>)
    requires |starts| == |ws|
  {
    forall a, b {:trigger IsRun(s, a, b)} :: p <= a && IsRun(s, a, b) ==>
      exists k :: 0 <= k < |ws| && starts[k] == a && |ws[k]| == b - a
  }

  lemma OneMoreWord(s: string, p: nat, q: nat, ws: seq<string>, starts: seq<int>)
    requires IsRun(s, p, q) && WordsAt(s, q, ws, starts)
    ensures WordsAt(s, p, [s[p..q]] + ws, [p] + starts)
  {
    var ws', starts' := [s[p..q]] + ws, [p] + starts;
    forall k | 0 <= k < |ws'|
      ensures p <= starts'[k] && IsRun(s, starts'[k], starts'[k] + |ws'[k]|)
      ensures ws'[k] == s[starts'[k]..starts'[k] + |ws'[k]|]
    {
      if k > 0 {
        assert ws'[k] == ws[k - 1] && starts'[k] == starts[k - 1];
      }
    }
  }

  lemma OneMoreRun(s: string, p: nat, q: nat, ws: seq<string>, starts: seq<int>)
    requires IsRun(s, p, q) && |starts| == |ws| && HasAllRuns(s, q, ws, starts)
    ensures HasAllRuns(s, p, [s[p..q]] + ws, [p] + starts)
  {
    var ws', starts' := [s[p..q]] + ws, [p] + starts;
    forall a, b | p <= a && IsRun(s, a, b)
      ensures exists k :: 0 <= k < |ws'| && starts'[k] == a && |ws'[k]| == b - a
    {
      if a == p {
        SameEnd(s, a, b, q);
        assert starts'[0] == a && |ws'[0]| == b - a;
      } else {
        NotInside(s, p, q, a, b);
        var k :| 0 <= k < |ws| && starts[k] == a && |ws[k]| == b - a;
        assert starts'[k + 1] == a && |ws'[k + 1]| == b - a;
      }
    }
  }

  lemma SameEnd(s: string, a: int, b: int, q: int)
    requires IsRun(s, a, b) && IsRun(s, a, q)
    ensures b == q
  {
  }

  lemma NotInside(s: string, p: int, q: int, a: int, b: int)
    requires IsRun(s, p, q) && IsRun(s, a, b) && p < a
    ensures q <= a
  {
  }

  /** Where a run may start and does, the first word is that run. */
  lemma FirstRun(s: string, p: nat) returns (q: nat)
    requires IsStart(s, p)
    ensures IsRun(s, p, q) && Fields(s[p..]) == [s[p..q]] + Fields(s[q..])
  {
    var rest := s[p..];
    var k := WordLength(rest);
    q := p + k;
    assert forall i :: p <= i < q ==> s[i] == rest[i - p];
    assert q < |s| ==> s[q] == rest[k];
    assert rest[k..] == s[q..] && rest[..k] == s[p..q];
  }

  ghost function StartsFrom(s: string, p: int): set<int> {
    set a | p <= a < |s| && IsStart(s, a)
  }

  lemma OneMoreStart(s: string, p: nat, q: nat)
    requires IsRun(s, p, q)
    ensures |StartsFrom(s, p)| == 1 + |StartsFrom(s, q)|
  {
    assert StartsFrom(s, p) == {p} + StartsFrom(s, q);
  }

  /** The fields of what follows p are all the runs from p on. */
  ghost predicate Described(s: string, p: nat, starts: seq<int>)
    requires p <= |s|
  {
    && WordsAt(s, p, Fields(s[p..]), starts) && HasAllRuns(s, p, Fields(s[p..]), starts)
    && |Fields(s[p..])| == |StartsFrom(s, p)|
  }

  lemma WordsAtEarlier(s: string, p: int, q: int, ws: seq<string>, starts: seq<int>)
    requires p <= q && WordsAt(s, q, ws, starts)
    ensures WordsAt(s, p, ws, starts)
  {
  }

  lemma NoRunAtSpace(s: string, p: nat, ws: seq<string>, starts: seq<int>)
    requires p < |s| && IsSpace(s[p]) && |starts| == |ws| && HasAllRuns(s, p + 1, ws, starts)
    ensures HasAllRuns(s, p, ws, starts)
  {
    forall a, b | p <= a && IsRun(s, a, b)
      ensures exists k :: 0 <= k < |ws| && starts[k] == a && |ws[k]| == b - a
    {
      assert !IsSpace(s[a]);
    }
  }

  lemma SkipSpace(s: string, p: nat, starts: seq<int>)
    requires p < |s| && IsSpace(s[p]) && Described(s, p + 1, starts)
    ensures Described(s, p, starts)
  {
    var ws := Fields(s[p + 1..]);
    assert Fields(s[p..]) == ws by { assert s[p..][1..] == s[p + 1..]; }
    WordsAtEarlier(s, p, p + 1, ws, starts);
    NoRunAtSpace(s, p, ws, starts);
    assert StartsFrom(s, p) == StartsFrom(s, p + 1);
  }

  lemma TakeRun(s: string, p: nat, q: nat, starts: seq<int>)
    requires IsRun(s, p, q) && Fields(s[p..]) == [s[p..q]] + Fields(s[q..]) && Described(s, q, starts)
    ensures Described(s, p, [p] + starts)
  {
    OneMoreWord(s, p, q, Fields(s[q..]), starts);
    OneMoreRun(s, p, q, Fields(s[q..]), starts);
    OneMoreStart(s, p, q);
  }

  /** Fields of what follows p, where no run goes across p. */
  lemma {:induction false} FieldsFrom(s: string, p: nat) returns (starts: seq<int>)
    requires p <= |s| && (p == 0 || p == |s| || IsSpace(s[p - 1]) || IsSpace(s[p]))
    ensures Described(s, p, starts)
    decreases |s| - p
  {
    if p == |s| {
      starts := [];
      assert StartsFrom(s, p) == {};
    } else if IsSpace(s[p]) {
      starts := FieldsFrom(s, p + 1);
      SkipSpace(s, p, starts);
    } else {
      var q := FirstRun(s, p);
      var later := FieldsFrom(s, q);
      TakeRun(s, p, q, later);
      starts := [p] + later;
    }
  }

  /**
   The words of a text, by position: every maximal run of non-spaces is a word
   and every word is one, in the order in which they stand, and there are as
   many words as positions where a run starts.
   */
  lemma FieldsAreTheRuns(s: string) returns (starts: seq<int>)
    ensures WordsAt(s, 0, Fields(s), starts) && HasAllRuns(s, 0, Fields(s), starts)
    ensures |Fields(s)| == |set a | 0 <= a < |s| && IsStart(s, a)|
  {
    assert s[0..] == s;
    starts := FieldsFrom(s, 0);
    assert StartsFrom(s, 0) == set a | 0 <= a < |s| && IsStart(s, a);
  }

  // ---- No character is lost ----

  /** The text without its spaces. */
  ghost function Ink(s: string): string {
    if s == "" then "" else (if IsSpace(s[0]) then "" else [s[0]]) + Ink(s[1..])
  }

  lemma {:induction false} InkOfConcat(a: string, b: string)
    ensures Ink(a + b) == Ink(a) + Ink(b)
  {
    if a == "" {
      assert a + b == b;
    } else {
      assert (a + b)[1..] == a[1..] + b;
      InkOfConcat(a[1..], b);
    }
  }

  lemma {:induction false} InkOfWord(w: string)
    requires forall i :: 0 <= i < |w| ==> !IsSpace(w[i])
    ensures Ink(w) == w
  {
    if w != "" {
      InkOfWord(w[1..]);
      assert w == [w[0]] + w[1..];
    }
  }

  lemma {:induction false} InkOfFields(s: string)
    ensures Ink(Join(Fields(s))) == Ink(s)
    decreases |s|
  {
    if s != "" {
      if IsSpace(s[0]) {
        InkOfFields(s[1..]);
      } else {
        var k := WordLength(s);
        var w, rest := s[..k], s[k..];
        assert s == w + rest;
        InkOfFields(rest);
        InkOfConcat(w, rest);
        InkOfJoin(w, Fields(rest));
      }
    }
  }

  lemma InkOfJoin(w: string, ws: seq<string>)
    ensures Ink(Join([w] + ws)) == Ink(w) + Ink(Join(ws))
  {
    if ws == [] {
      assert [w] + ws == [w];
      assert Ink(w) + Ink("") == Ink(w);
    } else {
      JoinOfConcat([w], ws);
      assert Join([w]) == w;
      InkOfConcat(w + " ", Join(ws));
      InkOfConcat(w, " ");
      assert Ink(" ") == "";
    }
  }

  // ---- Chunks ----

  /** Groups of n consecutive words, the last one possibly shorter. */
  function Groups(ws: seq<string>, n: int): seq<seq<string>>
    requires n > 0
    decreases |ws|
  {
    if ws == [] then []
    else if |ws| <= n then [ws]
    else [ws[..n]] + Groups(ws[n..], n)
  }

  function JoinEach(groups: seq<seq<string>>): seq<string> {
    if groups == [] then [] else [Join(groups[0])] + JoinEach(groups[1..])
  }

  function Chunks(text: string, maxWords: int): seq<string> {
    var ws := Fields(text);
    if ws == [] then []
    else if maxWords <= 0 then [Join(ws)]
    else JoinEach(Groups(ws, maxWords))
  }

  /** The chunks still to be cut when the loop stands at word i. */
  ghost function Remaining(ws: seq<string>, i: nat, n: int): seq<string>
    requires n > 0
  {
    if i < |ws| then JoinEach(Groups(ws[i..], n)) else []
  }

  lemma RemainingStep(ws: seq<string>, i: nat, n: int)
    requires n > 0 && i < |ws|
    ensures var end := if i + n > |ws| then |ws| else i + n;
            Remaining(ws, i, n) == [Join(ws[i..end])] + Remaining(ws, i + n, n)
  {
    var rest := ws[i..];
    if |rest| <= n {
      assert ws[i..|ws|] == rest;
      assert JoinEach([rest]) == [Join(rest)];
    } else {
      assert rest[..n] == ws[i..i + n] && rest[n..] == ws[i + n..];
      assert Groups(rest, n)[1..] == Groups(rest[n..], n);
    }
  }

  const MAX_INT := 0x7fff_ffff_ffff_ffff

  /** The original's loop, with its 64-bit additions checked against overflow. */
  method ChunkText(text: string, maxWords: int) returns (chunks: seq<string>)
    requires |text| <= MAX_INT && maxWords <= MAX_INT
    ensures chunks == Chunks(text, maxWords)
  {
    var words := Fields(text);
    FieldsAreWords(text);
    if |words| == 0 {
      return [];
    }
    if maxWords <= 0 {
      return [Join(words)];
    }
    chunks := [];
    var i := 0;
    assert words[0..] == words;
    while i < |words|
      invariant 0 <= i <= MAX_INT
      invariant i > 0 && i < |words| ==> maxWords <= |words|
      invariant Chunks(text, maxWords) == chunks + Remaining(words, i, maxWords)
      decreases |words| - i
    {
      assert i + maxWords <= MAX_INT;
      var end := i + maxWords;
      if end > |words| {
        end := |words|;
      }
      RemainingStep(words, i, maxWords);
      chunks := chunks + [Join(words[i..end])];
      i := i + maxWords;
    }
  }

  // ---- Sizes ----

  lemma {:induction false} GroupSizes(ws: seq<string>, n: int, k: int)
    requires n > 0 && 0 <= k < |Groups(ws, n)|
    ensures k < |Groups(ws, n)| - 1 ==> |Groups(ws, n)[k]| == n
    ensures 1 <= |Groups(ws, n)[k]| <= n
    ensures AllWords(ws) ==> AllWords(Groups(ws, n)[k])
    decreases |ws|
  {
    if |ws| > n && k > 0 {
      GroupSizes(ws[n..], n, k - 1);
    }
  }

  /** There are as many groups as the number of words divided by n, rounded up. */
  lemma {:induction false} GroupCount(ws: seq<string>, n: int)
    requires n > 0
    ensures var g := |Groups(ws, n)|; (g - 1) * n < |ws| <= g * n
    decreases |ws|
  {
    if |ws| > n {
      GroupCount(ws[n..], n);
      var g := |Groups(ws[n..], n)|;
      assert (g + 1) * n == g * n + n && (g + 1 - 1) * n == (g - 1) * n + n;
    }
  }

  lemma {:induction false} JoinEachAt(groups: seq<seq<string>>, k: int)
    requires 0 <= k < |groups|
    ensures |JoinEach(groups)| == |groups| && JoinEach(groups)[k] == Join(groups[k])
  {
    if k > 0 {
      JoinEachAt(groups[1..], k - 1);
    } else if |groups| > 1 {
      JoinEachAt(groups[1..], 0);
    }
  }

  /** Every chunk but the last has exactly maxWords words; the last has at least one and at most maxWords. */
  lemma ChunkSizes(text: string, maxWords: int, k: int)
    requires maxWords > 0 && 0 <= k < |Chunks(text, maxWords)|
    ensures var n := |Fields(Chunks(text, maxWords)[k])|;
            1 <= n <= maxWords && (k < |Chunks(text, maxWords)| - 1 ==> n == maxWords)
    ensures (|Chunks(text, maxWords)| - 1) * maxWords < |Fields(text)| <= |Chunks(text, maxWords)| * maxWords
  {
    var ws := Fields(text);
    var groups := Groups(ws, maxWords);
    FieldsAreWords(text);
    JoinEachLength(groups);
    JoinEachAt(groups, k);
    GroupSizes(ws, maxWords, k);
    SplitOfJoin(groups[k]);
    GroupCount(ws, maxWords);
  }

  lemma {:induction false} JoinEachLength(groups: seq<seq<string>>)
    ensures |JoinEach(groups)| == |groups|
  {
    if groups != [] {
      JoinEachLength(groups[1..]);
    }
  }

  // ---- Round trip ----

  /** Joining the chunks is joining the words. */
  lemma {:induction false} JoinOfGroups(ws: seq<string>, n: int)
    requires n > 0
    ensures Join(JoinEach(Groups(ws, n))) == Join(ws)
    decreases |ws|
  {
    if ws != [] && |ws| > n {
      var head, tail := ws[..n], ws[n..];
      JoinOfGroups(tail, n);
      assert ws == head + tail;
      JoinOfConcat(head, tail);
      var rest := JoinEach(Groups(tail, n));
      assert Groups(ws, n)[1..] == Groups(tail, n);
      assert JoinEach(Groups(ws, n)) == [Join(head)] + rest;
      JoinOfConcat([Join(head)], rest);
    } else if ws != [] {
      assert JoinEach([ws]) == [Join(ws)];
    }
  }

  /** Splitting the joined chunks gives back exactly the words of the text. */
  lemma ChunkRoundTrip(text: string, maxWords: int)
    ensures Fields(Join(Chunks(text, maxWords))) == Fields(text)
  {
    var ws := Fields(text);
    FieldsAreWords(text);
    SplitOfJoin(ws);
    if ws != [] && maxWords > 0 {
      JoinOfGroups(ws, maxWords);
    }
  }

  /** Chunking loses, adds and reorders no character but spaces. */
  lemma ChunksKeepInk(text: string, maxWords: int)
    ensures Ink(Join(Chunks(text, maxWords))) == Ink(text)
  {
    InkOfFields(text);
    if Fields(text) != [] && maxWords > 0 {
      JoinOfGroups(Fields(text), maxWords);
    }
  }

  /** The k-th chunk holds, joined by single blanks, the words from k * maxWords on. */
  lemma ChunkIsSlice(text: string, maxWords: int, k: nat)
    requires maxWords > 0 && k < |Chunks(text, maxWords)|
    ensures var ws := Fields(text);
            var end := if (k + 1) * maxWords <= |ws| then (k + 1) * maxWords else |ws|;
            0 <= k * maxWords < end && Chunks(text, maxWords)[k] == Join(ws[k * maxWords..end])
  {
    var ws := Fields(text);
    JoinEachLength(Groups(ws, maxWords));
    JoinEachAt(Groups(ws, maxWords), k);
    GroupIsSlice(ws, maxWords, k, k * maxWords);
    assert (k + 1) * maxWords == k * maxWords + maxWords;
  }

  lemma {:induction false} GroupIsSlice(ws: seq<string>, n: int, k: nat, from: nat)
    requires n > 0 && k < |Groups(ws, n)| && from == k * n
    ensures var end := if from + n <= |ws| then from + n else |ws|;
            from < end && Groups(ws, n)[k] == ws[from..end]
    decreases k
  {
    if k > 0 {
      assert from - n == (k - 1) * n;
      GroupIsSlice(ws[n..], n, k - 1, from - n);
      var end := if from + n <= |ws| then from + n else |ws|;
      assert ws[n..][from - n..end - n] == ws[from..end];
    }
  }

  /** Chunking what was chunked and joined again changes nothing. */
  lemma RechunkingIsIdempotent(text: string, maxWords: int)
    ensures Chunks(Join(Chunks(text, maxWords)), maxWords) == Chunks(text, maxWords)
  {
    ChunkRoundTrip(text, maxWords);
  }
}
