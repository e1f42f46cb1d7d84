/** The rotating headline: every two seconds the next of five phrases is
    split into words and characters, the old characters leave and the new
    ones enter with a per-character stagger that runs from the last
    character to the first. */
module RotatingText {
  import opened Utilities

  const Texts: seq<string> := ["AI Systems", "NLP Pipelines", "Data Engines", "Secure APIs", "ML Models"]
  /** Milliseconds between two phrase changes. */
  const Interval: nat := 2000
  /** Milliseconds of delay per character. */
  const Stagger: nat := 25
  /** Extra milliseconds the exit is given before the swap. */
  const ExitMargin: nat := 500

  // ---------------------------------------------------------------------
  // `text.split(' ')` and its inverse

  /** `s.split(' ')`: the pieces between single spaces, empty pieces
      included (two spaces in a row give an empty word), always at least one. */
  function Split(s: string): (ws: seq<string>)
    ensures |ws| >= 1
  {
    if s == [] then [[]]
    else
      var rest := Split(s[1..]);
      if s[0] == ' ' then [[]] + rest
      else [[s[0]] + rest[0]] + rest[1..]
  }

  /** No word `split` returns holds a space. */
  lemma {:induction false} SplitWordsNoSpace(s: string)
    ensures forall w :: w in Split(s) ==> ' ' !in w
  {
    if s != [] {
      var rest := Split(s[1..]);
      SplitWordsNoSpace(s[1..]);
      assert forall w :: w in rest[1..] ==> w in rest;
      if s[0] != ' ' {
        assert rest[0] in rest;
      }
    }
  }

  /** `ws.join(' ')`. */
  function Join(ws: seq<string>): string
    requires |ws| >= 1
  {
    if |ws| == 1 then ws[0] else ws[0] + " " + Join(ws[1..])
  }

  /** Joining the words with single spaces gives the text back. */
  lemma {:induction false} SplitJoin(s: string)
    ensures Join(Split(s)) == s
  {
    if s != [] {
      var rest := Split(s[1..]);
      SplitJoin(s[1..]);
      if s[0] == ' ' {
        assert ([[]] + rest)[1..] == rest;
      } else {
        var ws := [[s[0]] + rest[0]] + rest[1..];
        if |rest| > 1 {
          assert ws[1..] == rest[1..];
        }
      }
    }
  }

  /** ... and splitting a join of space-free words gives the words back. */
  lemma {:induction false} JoinSplit(ws: seq<string>)
    requires |ws| >= 1
    requires forall w :: w in ws ==> ' ' !in w
    ensures Split(Join(ws)) == ws
  {
    if |ws| == 1 {
      SplitPrefix(ws[0], []);
      assert ws[0] + [] == ws[0];
    } else {
      var tail := Join(ws[1..]);
      JoinSplit(ws[1..]);
      var s := " " + tail;
      assert s[0] == ' ' && s[1..] == tail;
      assert Split(s) == [[]] + ws[1..];
      SplitPrefix(ws[0], s);
      assert ws[0] + [] == ws[0];
      assert Join(ws) == ws[0] + s;
      assert ws == [ws[0]] + ws[1..];
    }
  }

  /** A space-free prefix only lengthens the first word. */
  lemma {:induction false} SplitPrefix(w: string, s: string)
    requires ' ' !in w
    ensures Split(w + s) == [w + Split(s)[0]] + Split(s)[1..]
  {
    if w == [] {
      var S := Split(s);
      assert w + s == s && w + S[0] == S[0];
      assert S == [S[0]] + S[1..];
    } else {
      var S := Split(s);
      SplitPrefix(w[1..], s);
      var R := Split(w[1..] + s);
      assert R[0] == w[1..] + S[0] && R[1..] == S[1..];
      assert w[0] != ' ' by { assert w[0] in w; }
      assert (w + s)[0] == w[0];
      assert (w + s)[1..] == w[1..] + s;
      assert Split(w + s) == [[w[0]] + R[0]] + R[1..];
      assert [w[0]] + (w[1..] + S[0]) == w + S[0];
    }
  }

  // ---------------------------------------------------------------------
  // `buildText`

  /** A child of the built fragment: a word's span, or the span holding one space. */
  datatype Token = Word(text: string) | Space

  /** The fragment and the character list `buildText` returns; each
      character stands for its own span. */
  datatype Built = Built(tokens: seq<Token>, chars: string)

  /** The text a row of tokens shows. */
  function Render(ts: seq<Token>): string {
    if ts == [] then [] else
      (if ts[0].Space? then " " else ts[0].text) + Render(ts[1..])
  }

  lemma {:induction false} RenderAppend(a: seq<Token>, b: seq<Token>)
    ensures Render(a + b) == Render(a) + Render(b)
  {
    if a != [] {
      RenderAppend(a[1..], b);
      assert (a + b)[1..] == a[1..] + b;
    } else {
      assert a + b == b;
    }
  }

  /** One word token per word with exactly one space token between two
      consecutive words: words at even positions, spaces at odd ones. */
  function Interleave(ws: seq<string>): (ts: seq<Token>)
    requires |ws| >= 1
    ensures |ts| == 2 * |ws| - 1
    ensures forall i :: 0 <= i < |ts| ==> (ts[i].Space? <==> i % 2 == 1)
    ensures forall i :: 0 <= i < |ws| ==> ts[2 * i] == Word(ws[i])
  {
    if |ws| == 1 then [Word(ws[0])]
    else
      var rest := Interleave(ws[1..]);
      var ts := [Word(ws[0]), Space] + rest;
      assert forall i :: 2 <= i < |ts| ==> ts[i] == rest[i - 2];
      assert forall i :: 1 <= i < |ws| ==> ts[2 * i] == rest[2 * (i - 1)];
      ts
  }

  lemma {:induction false} RenderInterleave(ws: seq<string>)
    requires |ws| >= 1
    ensures Render(Interleave(ws)) == Join(ws)
  {
    if |ws| > 1 {
      RenderInterleave(ws[1..]);
      RenderAppend([Word(ws[0]), Space], Interleave(ws[1..]));
      assert Render([Word(ws[0]), Space]) == ws[0] + " ";
    } else {
      assert Render([Word(ws[0])]) == ws[0] + [];
    }
  }

  /** All the words' characters, in order. */
  function Concat(ws: seq<string>): string {
    if ws == [] then [] else ws[0] + Concat(ws[1..])
  }

  /** The text with its spaces removed. */
  function NoSpaces(s: string): (r: string)
    ensures |r| <= |s|
  {
    if s == [] then [] else (if s[0] == ' ' then [] else [s[0]]) + NoSpaces(s[1..])
  }

  lemma {:induction false} NoSpacesAppend(a: string, b: string)
    ensures NoSpaces(a + b) == NoSpaces(a) + NoSpaces(b)
  {
    if a != [] {
      NoSpacesAppend(a[1..], b);
      assert (a + b)[1..] == a[1..] + b;
    } else {
      assert a + b == b;
    }
  }

  lemma {:induction false} NoSpacesOfWord(w: string)
    requires ' ' !in w
    ensures NoSpaces(w) == w
  {
    if w != [] {
      NoSpacesOfWord(w[1..]);
      assert w == [w[0]] + w[1..];
    }
  }

  lemma {:induction false} ConcatIsJoinWithoutSpaces(ws: seq<string>)
    requires |ws| >= 1
    requires forall w :: w in ws ==> ' ' !in w
    ensures Concat(ws) == NoSpaces(Join(ws))
  {
    NoSpacesOfWord(ws[0]);
    if |ws| == 1 {
      assert Concat(ws) == ws[0] + Concat([]);
      assert ws[0] + [] == ws[0];
    } else {
      assert forall w :: w in ws[1..] ==> w in ws;
      ConcatIsJoinWithoutSpaces(ws[1..]);
      ConcatStep(ws);
    }
  }

  lemma ConcatStep(ws: seq<string>)
    requires |ws| >= 2 && NoSpaces(ws[0]) == ws[0]
    requires Concat(ws[1..]) == NoSpaces(Join(ws[1..]))
    ensures Concat(ws) == NoSpaces(Join(ws))
  {
    var J := Join(ws[1..]);
    assert Join(ws) == ws[0] + (" " + J);
    NoSpacesAppend(ws[0], " " + J);
    NoSpacesAfterSpace(J);
  }

  lemma NoSpacesAfterSpace(s: string)
    ensures NoSpaces(" " + s) == NoSpaces(s)
  {
    assert (" " + s)[0] == ' ' && (" " + s)[1..] == s;
  }

  /** Every word token carries one of the words. */
  lemma {:induction false} InterleaveWords(ws: seq<string>)
    requires |ws| >= 1
    ensures forall t :: t in Interleave(ws) && t.Word? ==> t.text in ws
  {
    if |ws| > 1 {
      InterleaveWords(ws[1..]);
      var rest := Interleave(ws[1..]);
      assert Interleave(ws) == [Word(ws[0]), Space] + rest;
      assert forall w :: w in ws[1..] ==> w in ws;
    }
  }

  /** `buildText(text)`: the fragment shows exactly the text, as word spans
      with one space span between consecutive words, and the character list
      is the text's characters without its spaces. */
  function BuildText(text: string): (b: Built)
    ensures Render(b.tokens) == text
    ensures b.chars == NoSpaces(text)
    ensures |b.tokens| == 2 * |Split(text)| - 1
    ensures forall i :: 0 <= i < |b.tokens| ==> (b.tokens[i].Space? <==> i % 2 == 1)
    ensures forall t :: t in b.tokens && t.Word? ==> ' ' !in t.text
  {
    var ws := Split(text);
    SplitWordsNoSpace(text);
    RenderInterleave(ws);
    SplitJoin(text);
    ConcatIsJoinWithoutSpaces(ws);
    var ts := Interleave(ws);
    InterleaveWords(ws);
    Built(ts, Concat(ws))
  }

  /** Rebuilding the text the fragment shows gives the same fragment. */
  lemma BuildTextRoundTrip(text: string)
    ensures BuildText(Render(BuildText(text).tokens)) == BuildText(text)
  {
  }

  // ---------------------------------------------------------------------
  // `setStaggerDelays`

  /** The `--char-delay` of each of `n` characters, in milliseconds: counted
      from the last character when `staggerFrom` is `"last"`, from the
      first otherwise. */
  function StaggerDelays(n: nat, staggerFrom: string): (d: seq<int>)
    ensures |d| == n
    ensures forall i :: 0 <= i < n ==> 0 <= d[i] <= (n - 1) * Stagger
    ensures staggerFrom == "last" && n > 0 ==> d[n - 1] == 0
    ensures staggerFrom != "last" && n > 0 ==> d[0] == 0
  {
    seq(n, i requires 0 <= i < n =>
      if staggerFrom == "last" then (n - 1 - i) * Stagger else i * Stagger)
  }

  /** Neighbouring characters start 25 ms apart: earlier characters later
      when staggering from the last, the other way round otherwise. */
  lemma StaggerStep(n: nat, staggerFrom: string, i: nat)
    requires i + 1 < n
    ensures staggerFrom == "last" ==>
              StaggerDelays(n, staggerFrom)[i] == StaggerDelays(n, staggerFrom)[i + 1] + Stagger
    ensures staggerFrom != "last" ==>
              StaggerDelays(n, staggerFrom)[i + 1] == StaggerDelays(n, staggerFrom)[i] + Stagger
  {
  }

  /** The two orders mirror each other. */
  lemma StaggerMirror(n: nat, i: nat)
    requires i < n
    ensures StaggerDelays(n, "last")[i] == StaggerDelays(n, "first")[n - 1 - i]
  {
  }

  /** The wait before the swap: `chars.length * 25 + 500`. */
  function MaxDelay(n: nat): (m: nat)
    ensures forall i :: 0 <= i < n ==> StaggerDelays(n, "last")[i] + ExitMargin < m
  {
    n * Stagger + ExitMargin
  }

  /** Every phrase's exit is over, and its replacement swapped in, before
      the next change is due. */
  lemma {:induction false} SwapBeforeNextChange(i: nat)
    requires i < |Texts|
    ensures MaxDelay(|BuildText(Texts[i]).chars|) < Interval
  {
    assert |Texts[i]| <= 13;
  }

  /** `(currentIndex + 1) % texts.length` for a list of `n` phrases. */
  function NextIndex(i: nat, n: nat): (j: nat)
    requires n > 0
    ensures j < n
    ensures i < n - 1 ==> j == i + 1
    ensures i == n - 1 ==> j == 0
  {
    (i + 1) % n
  }

  function Rotations(n: nat, m: nat): nat
    requires n > 0
  {
    if m == 0 then 0 else NextIndex(Rotations(n, m - 1), n)
  }

  /** After `m` changes from the first phrase the `m mod n`-th is shown, so
      every phrase comes round and the cycle has length `n`. */
  lemma {:induction false} RotationsCycle(n: nat, m: nat)
    requires n > 0
    ensures Rotations(n, m) == m % n
  {
    if m > 0 {
      RotationsCycle(n, m - 1);
      ModStep(m - 1, n);
    }
  }

  /** Adding one after reducing gives the same residue as reducing after. */
  lemma ModStep(a: nat, n: nat)
    requires n > 0
    ensures (a % n + 1) % n == (a + 1) % n
  {
    var q, r := a / n, a % n;
    DivMod(a, n);
    if r + 1 < n {
      ModOf(a + 1, n, q, r + 1);
    } else {
      MulSucc(q, n);
      ModOf(a + 1, n, q + 1, 0);
    }
    ModOf(r + 1, n, if r + 1 < n then 0 else 1, if r + 1 < n then r + 1 else 0);
  }

  // ---------------------------------------------------------------------
  // The rotating headline

  /** The headline's state: its phrases, the index shown, the screen-reader
      text, the track's tokens and characters with their delays, whether
      those characters are exiting, and the fragment waiting for the swap.
      The page builds it over `Texts`. */
  class Headline {
    const texts: seq<string>
    var currentIndex: nat
    var srText: string
    var track: seq<Token>
    var currentChars: string
    var charDelays: seq<int>
    var exiting: bool
    var pending: Option<Built>

    /** The screen-reader text is always the current phrase; either the
        track shows it, or its fragment waits for the swap while the old
        characters leave. The characters on show carry the stagger from the
        last. */
    ghost predicate Valid()
      reads this
    {
      && currentIndex < |texts|
      && srText == texts[currentIndex]
      && charDelays == StaggerDelays(|currentChars|, "last")
      && (pending.None? ==> Built(track, currentChars) == BuildText(srText) && !exiting)
      && (pending.Some? ==> pending.value == BuildText(srText) && exiting)
    }

    /** `showText(0, true)`: the first phrase goes straight into the track. */
    constructor (texts: seq<string>)
      requires |texts| > 0
      ensures Valid()
      ensures this.texts == texts && currentIndex == 0 && srText == texts[0]
      ensures pending.None? && Built(track, currentChars) == BuildText(texts[0])
    {
      var b := BuildText(texts[0]);
      this.texts := texts;
      currentIndex := 0;
      srText := texts[0];
      track, currentChars := b.tokens, b.chars;
      charDelays := StaggerDelays(|b.chars|, "last");
      exiting, pending := false, None;
    }

    /** The interval callback: move to the next phrase and `showText` it.
        With characters on show they start exiting and the new fragment
        waits; with none it goes in at once. */
    method Advance()
      requires Valid()
      modifies this
      ensures Valid()
      ensures currentIndex == NextIndex(old(currentIndex), |texts|)
      ensures srText == texts[currentIndex]
      ensures |old(currentChars)| > 0 ==>
                && pending == Some(BuildText(srText)) && exiting
                && currentChars == old(currentChars) && track == old(track)
                && charDelays == StaggerDelays(|currentChars|, "last")
      ensures |old(currentChars)| == 0 ==>
                pending.None? && Built(track, currentChars) == BuildText(srText)
    {
      currentIndex := NextIndex(currentIndex, |texts|);
      var b := BuildText(texts[currentIndex]);
      srText := texts[currentIndex];
      if |currentChars| > 0 {
        charDelays := StaggerDelays(|currentChars|, "last");
        exiting := true;
        pending := Some(b);
      } else {
        track, currentChars := b.tokens, b.chars;
        charDelays := StaggerDelays(|b.chars|, "last");
        exiting, pending := false, None;
      }
    }

    /** The timeout after the exit: the waiting fragment replaces the track
        and its characters enter, staggered from the last. */
    method Swap()
      requires Valid()
      modifies this
      ensures Valid()
      ensures pending.None? && !exiting
      ensures Built(track, currentChars) == BuildText(srText)
      ensures currentIndex == old(currentIndex) && srText == old(srText)
    {
      if pending.Some? {
        var b := pending.value;
        track, currentChars := b.tokens, b.chars;
        charDelays := StaggerDelays(|b.chars|, "last");
        exiting, pending := false, None;
      }
    }
  }

}
