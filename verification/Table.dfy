/** Laying out a Markdown table for a terminal: shrinking the columns to the width there is,
    wrapping each cell in its column, and framing the result.  Characters have an abstract
    display width, added up over a string. */
module Table {
  import opened Basics

  datatype Glyph = Glyph(code: nat, width: nat, blank: bool)
  type Text = seq<Glyph>

  const SPACE := Glyph(32, 1, true)

  function Width(t: Text): nat {
    if t == [] then 0 else Width(t[..|t| - 1]) + t[|t| - 1].width
  }

  lemma {:induction false} WidthConcat(a: Text, b: Text)
    ensures Width(a + b) == Width(a) + Width(b)
  {
    if b == [] {
      assert a + b == a;
    } else {
      assert (a + b)[..|a + b| - 1] == a + b[..|b| - 1];
      WidthConcat(a, b[..|b| - 1]);
    }
  }

  lemma WidthOne(g: Glyph)
    ensures Width([g]) == g.width
  {
    assert [g][..0] == [];
  }

  // ---- Shrinking the columns ----

  function Sum(widths: seq<nat>): nat {
    if widths == [] then 0 else Sum(widths[..|widths| - 1]) + widths[|widths| - 1]
  }

  lemma {:induction false} SumUpdate(widths: seq<nat>, i: nat, v: nat)
    requires i < |widths|
    ensures Sum(widths[i := v]) == Sum(widths) - widths[i] + v
  {
    var last := |widths| - 1;
    if i == last {
      assert widths[i := v][..last] == widths[..last];
    } else {
      assert widths[i := v][..last] == widths[..last][i := v];
      SumUpdate(widths[..last], i, v);
    }
  }

  lemma {:induction false} SumOnes(widths: seq<nat>)
    requires forall i | 0 <= i < |widths| :: widths[i] >= 1
    ensures Sum(widths) >= |widths|
    ensures (forall i | 0 <= i < |widths| :: widths[i] == 1) ==> Sum(widths) == |widths|
  {
    if widths != [] {
      SumOnes(widths[..|widths| - 1]);
    }
  }

  /** Only columns that are widest, or within one of it, have been shrunk; of equally wide
      ones the last goes first. */
  ghost predicate ShrunkFrom(original: seq<nat>, widths: seq<nat>) {
    && |widths| == |original|
    && (forall i | 0 <= i < |widths| :: 1 <= widths[i] <= original[i])
    && (forall i, j | 0 <= i < |widths| && 0 <= j < |widths| && widths[i] < original[i] ::
          if i < j then widths[j] <= widths[i] else widths[j] <= widths[i] + 1)
  }

  /** The last of the widest columns. */
  method Widest(widths: seq<nat>) returns (index: nat)
    requires widths != []
    ensures index < |widths|
    ensures forall j | 0 <= j < |widths| :: if index < j then widths[j] < widths[index] else widths[j] <= widths[index]
  {
    index := 0;
    for i := 1 to |widths|
      invariant index < i
      invariant forall j | 0 <= j < i :: if index < j then widths[j] < widths[index] else widths[j] <= widths[index]
    {
      if widths[i] >= widths[index] {
        index := i;
      }
    }
  }

  method Shrink(original: seq<nat>, maxContent: nat) returns (widths: seq<nat>)
    requires original != [] && forall i | 0 <= i < |original| :: original[i] >= 1
    ensures ShrunkFrom(original, widths)
    ensures Sum(widths) == Min(Sum(original), Max(maxContent, |original|))
  {
    widths := original;
    SumOnes(original);
    while Sum(widths) > maxContent
      invariant ShrunkFrom(original, widths)
      invariant Sum(widths) == Sum(original) || maxContent <= Sum(widths) < Sum(original)
      invariant Sum(widths) >= |widths|
      decreases Sum(widths)
    {
      var index := Widest(widths);
      if widths[index] <= 1 {
        SumOnes(widths);
        break;
      }
      SumUpdate(widths, index, widths[index] - 1);
      widths := widths[index := widths[index] - 1];
      SumOnes(widths);
    }
  }

  // ---- Words ----

  /** The characters that are not blank, in order. */
  function Ink(t: Text): Text {
    if t == [] then []
    else Ink(t[..|t| - 1]) + if t[|t| - 1].blank then [] else [t[|t| - 1]]
  }

  lemma {:induction false} InkConcat(a: Text, b: Text)
    ensures Ink(a + b) == Ink(a) + Ink(b)
  {
    if b == [] {
      assert a + b == a;
    } else {
      assert (a + b)[..|a + b| - 1] == a + b[..|b| - 1];
      InkConcat(a, b[..|b| - 1]);
    }
  }

  predicate IsWord(w: Text) {
    w != [] && forall i | 0 <= i < |w| :: !w[i].blank
  }

  lemma {:induction false} WordInk(w: Text)
    requires forall i | 0 <= i < |w| :: !w[i].blank
    ensures Ink(w) == w
  {
    if w != [] {
      WordInk(w[..|w| - 1]);
    }
  }

  /** How many characters from `from` on are not blank before the next blank. */
  function WordEnd(t: Text, from: nat): (end: nat)
    requires from <= |t|
    ensures from <= end <= |t|
    ensures forall i | from <= i < end :: !t[i].blank
    ensures end < |t| ==> t[end].blank
    decreases |t| - from
  {
    if from < |t| && !t[from].blank then WordEnd(t, from + 1) else from
  }

  /** Splitting at blanks: the maximal runs of other characters. */
  function Words(t: Text): seq<Text>
    decreases |t|
  {
    if t == [] then []
    else if t[0].blank then Words(t[1..])
    else
      var end := WordEnd(t, 0);
      [t[..end]] + Words(t[end..])
  }

  function Flatten<T>(parts: seq<seq<T>>): seq<T> {
    if parts == [] then [] else Flatten(parts[..|parts| - 1]) + parts[|parts| - 1]
  }

  lemma {:induction false} FlattenConcat<T>(a: seq<seq<T>>, b: seq<seq<T>>)
    ensures Flatten(a + b) == Flatten(a) + Flatten(b)
  {
    if b == [] {
      assert a + b == a;
    } else {
      var last := b[|b| - 1];
      assert (a + b)[..|a + b| - 1] == a + b[..|b| - 1];
      FlattenConcat(a, b[..|b| - 1]);
      assert Flatten(a) + (Flatten(b[..|b| - 1]) + last) == Flatten(a) + Flatten(b[..|b| - 1]) + last;
    }
  }

  lemma FlattenOne<T>(part: seq<T>)
    ensures Flatten([part]) == part
  {
    assert [part][..0] == [];
  }

  /** The words are the text's characters, in order, without the blanks. */
  lemma {:induction false} WordsMean(t: Text)
    ensures Flatten(Words(t)) == Ink(t)
    ensures forall w | w in Words(t) :: IsWord(w)
    decreases |t|
  {
    if t != [] {
      if t[0].blank {
        WordsMean(t[1..]);
        assert t == [t[0]] + t[1..];
        InkConcat([t[0]], t[1..]);
        assert [t[0]][..0] == [];
      } else {
        var end := WordEnd(t, 0);
        WordsMean(t[end..]);
        assert t == t[..end] + t[end..];
        InkConcat(t[..end], t[end..]);
        WordInk(t[..end]);
        FlattenConcat([t[..end]], Words(t[end..]));
        FlattenOne(t[..end]);
      }
    }
  }

  /** What stands before, between and after the words. */
  function Gaps(t: Text): (gaps: seq<Text>)
    ensures |gaps| == |Words(t)| + 1
    decreases |t|
  {
    if t == [] then [[]]
    else if t[0].blank then
      var rest := Gaps(t[1..]);
      [[t[0]] + rest[0]] + rest[1..]
    else [[]] + Gaps(t[WordEnd(t, 0)..])
  }

  function Weave(gaps: seq<Text>, words: seq<Text>): Text
    requires |gaps| == |words| + 1
  {
    if words == [] then gaps[0] else gaps[0] + words[0] + Weave(gaps[1..], words[1..])
  }

  /** Words are as long as can be: only blanks separate them, and at least one. */
  lemma {:induction false} WordsApart(t: Text)
    ensures Weave(Gaps(t), Words(t)) == t && Apart(Gaps(t), |Words(t)|)
    ensures t != [] && t[0].blank ==> Gaps(t)[0] != []
    decreases |t|
  {
    if t == [] {
      NoWords();
    } else if t[0].blank {
      WordsApart(t[1..]);
      BlankUnfold(t);
      WeaveFirst(Gaps(t[1..]), Words(t[1..]), t[0]);
      ApartFirst(Gaps(t[1..]), |Words(t[1..])|, t[0]);
      hide *;
      assert t == [t[0]] + t[1..];
    } else {
      var end := WordEnd(t, 0);
      WordsApart(t[end..]);
      WordsUnfold(t);
      WeaveNext(t[..end], Gaps(t[end..]), Words(t[end..]));
      ApartNext(Gaps(t[end..]), Words(t[end..]));
      hide *;
      assert t == t[..end] + t[end..];
    }
  }

  lemma NoWords()
    ensures Weave(Gaps([]), Words([])) == [] && Apart(Gaps([]), |Words([])|)
  {
  }

  lemma BlankUnfold(t: Text)
    requires t != [] && t[0].blank
    ensures var rest := Gaps(t[1..]);
            Words(t) == Words(t[1..]) && Gaps(t) == [[t[0]] + rest[0]] + rest[1..] && Gaps(t)[0] != []
  {
  }

  lemma ApartFirst(gaps: seq<Text>, n: nat, g: Glyph)
    requires |gaps| == n + 1 && Apart(gaps, n) && g.blank
    ensures Apart([[g] + gaps[0]] + gaps[1..], n)
  {
    var all := [[g] + gaps[0]] + gaps[1..];
    assert forall i | 0 < i < |all| :: all[i] == gaps[i];
    assert forall k | 0 < k < |all[0]| :: all[0][k] == gaps[0][k - 1];
  }

  /** Blanks everywhere, and some between any two of `n` words. */
  ghost predicate Apart(gaps: seq<Text>, n: nat)
    requires |gaps| == n + 1
  {
    && (forall i, k | 0 <= i < |gaps| && 0 <= k < |gaps[i]| :: gaps[i][k].blank)
    && (forall i | 0 < i < n :: gaps[i] != [])
  }

  lemma WordsUnfold(t: Text)
    requires t != [] && !t[0].blank
    ensures var end := WordEnd(t, 0);
            && 0 < end && Words(t) == [t[..end]] + Words(t[end..]) && Gaps(t) == [[]] + Gaps(t[end..])
            && (Words(t[end..]) != [] ==> t[end..] != [] && t[end..][0].blank)
  {
  }

  lemma WeaveNext(word: Text, gaps: seq<Text>, words: seq<Text>)
    requires |gaps| == |words| + 1
    ensures Weave([[]] + gaps, [word] + words) == word + Weave(gaps, words)
  {
    assert ([[]] + gaps)[1..] == gaps && ([word] + words)[1..] == words;
    assert [] + word == word;
  }

  lemma ApartNext(gaps: seq<Text>, words: seq<Text>)
    requires |gaps| == |words| + 1 && Apart(gaps, |words|) && (words != [] ==> gaps[0] != [])
    ensures Apart([[]] + gaps, |words| + 1)
  {
    var all := [[]] + gaps;
    assert forall i | 0 < i < |all| :: all[i] == gaps[i - 1];
  }

  lemma WeaveFirst(gaps: seq<Text>, words: seq<Text>, g: Glyph)
    requires |gaps| == |words| + 1
    ensures Weave([[g] + gaps[0]] + gaps[1..], words) == [g] + Weave(gaps, words)
  {
    assert ([[g] + gaps[0]] + gaps[1..])[1..] == gaps[1..];
    if words != [] {
      assert [g] + gaps[0] + words[0] + Weave(gaps[1..], words[1..]) == [g] + (gaps[0] + words[0] + Weave(gaps[1..], words[1..]));
    }
  }

  // ---- Wrapping ----

  /** A word, or part of one where it was broken, with the word it belongs to. */
  datatype Piece = Piece(text: Text, word: Text, first: bool)

  /** Pieces on one line, one space apart. */
  function Join(pieces: seq<Piece>): Text {
    if pieces == [] then []
    else if |pieces| == 1 then pieces[0].text
    else Join(pieces[..|pieces| - 1]) + [SPACE] + pieces[|pieces| - 1].text
  }

  function Lines(groups: seq<seq<Piece>>): seq<Text> {
    seq(|groups|, i requires 0 <= i < |groups| => Join(groups[i]))
  }

  function InkOf(lines: seq<Text>): seq<Text> {
    seq(|lines|, i requires 0 <= i < |lines| => Ink(lines[i]))
  }

  lemma InkOfSnoc(lines: seq<Text>, line: Text)
    ensures Flatten(InkOf(lines + [line])) == Flatten(InkOf(lines)) + Ink(line)
  {
    assert InkOf(lines + [line])[..|lines|] == InkOf(lines);
  }

  /** No line is wider than the column, unless it is a single character that is. */
  predicate Fits(line: Text, width: nat) {
    Width(line) <= width || (|line| == 1 && !line[0].blank && line[0].width > width)
  }

  /** Why a piece is not on the line before: its word did not fit there after a space or, within
      a word, its first character did not. */
  predicate NoRoom(line: Text, piece: Piece, width: nat) {
    if piece.first then Width(line) + 1 + Width(piece.word) > width
    else piece.text != [] && Width(line) + piece.text[0].width > width
  }

  /** `groups` is the greedy distribution of pieces over lines: there was no room for the first
      piece of a line on the one before, and all others on it begin words. */
  predicate Greedy(groups: seq<seq<Piece>>, width: nat) {
    groups == [] ||
    var last := |groups| - 1;
    && Greedy(groups[..last], width)
    && groups[last] != [] && (forall k | 0 < k < |groups[last]| :: groups[last][k].first)
    && (last > 0 ==> NoRoom(Join(groups[last - 1]), groups[last][0], width))
  }

  /** Each piece but the last is full: the next character had no room on its line. */
  predicate Full(pieces: seq<Text>, width: nat) {
    forall i | 0 < i < |pieces| :: pieces[i] != [] && Width(pieces[i - 1]) + pieces[i][0].width > width
  }

  lemma FullSnoc(pieces: seq<Text>, line: Text, g: Glyph, width: nat)
    requires line != [] && Full(pieces + [line], width)
    ensures Full(pieces + [line + [g]], width)
    ensures Width(line) + g.width > width ==> Full(pieces + [line] + [[g]], width)
  {
    hide Width;
    var all := pieces + [line];
    assert forall i | 0 <= i < |pieces| :: all[i] == pieces[i] == (pieces + [line + [g]])[i];
    assert all[|pieces|] == line && (pieces + [line + [g]])[|pieces|] == line + [g];
    forall i | 0 < i < |pieces| + 1
      ensures var more := pieces + [line + [g]]; more[i] != [] && Width(more[i - 1]) + more[i][0].width > width
    {
      assert all[i] != [] && Width(all[i - 1]) + all[i][0].width > width;
    }
    var next := all + [[g]];
    assert forall i | 0 <= i < |all| :: next[i] == all[i];
    assert next[|all|] == [g];
  }

  /** Each word in one or more pieces; a word that fits in the column stays whole, and others
      are broken only where a line is full. */
  predicate Pieces(words: seq<Text>, parts: seq<seq<Text>>, width: nat) {
    && |parts| == |words|
    && forall i | 0 <= i < |words| ::
         && Flatten(parts[i]) == words[i] && Full(parts[i], width)
         && (Width(words[i]) <= width ==> parts[i] == [words[i]])
  }

  function Marked(word: Text, texts: seq<Text>): (part: seq<Piece>)
    ensures |part| == |texts|
  {
    seq(|texts|, i requires 0 <= i < |texts| => Piece(texts[i], word, i == 0))
  }

  function MarkAll(words: seq<Text>, parts: seq<seq<Text>>): seq<seq<Piece>>
    requires |words| == |parts|
  {
    seq(|words|, i requires 0 <= i < |words| => Marked(words[i], parts[i]))
  }

  /** The pieces of all words in order, greedily over lines, one space apart on each. */
  predicate Distributed(words: seq<Text>, parts: seq<seq<Text>>, groups: seq<seq<Piece>>, width: nat, lines: seq<Text>) {
    && Pieces(words, parts, width)
    && Flatten(groups) == Flatten(MarkAll(words, parts))
    && Greedy(groups, width)
    && lines == if groups == [] then [[]] else Lines(groups)
  }

  /** What wrapping promises: every character that is not blank, in order, on lines that fit;
      words that fit in the column are never broken, and lines are filled greedily. */
  ghost predicate Wraps(t: Text, width: nat, lines: seq<Text>) {
    && lines != []
    && Flatten(InkOf(lines)) == Ink(t)
    && (forall i | 0 <= i < |lines| :: Fits(lines[i], width))
    && exists parts, groups :: Distributed(Words(t), parts, groups, width, lines)
  }

  /** A word that fits in the column is whole on some line. */
  lemma FittingWordsAreWhole(t: Text, width: nat, lines: seq<Text>, w: Text)
    requires Wraps(t, width, lines) && w in Words(t) && Width(w) <= width
    ensures exists l, before, after :: 0 <= l < |lines| && lines[l] == before + w + after
  {
    var parts, groups :| Distributed(Words(t), parts, groups, width, lines);
    hide Words, Width, Join, Flatten, Full, Greedy, Lines, MarkAll;
    var piece := Piece(w, w, true);
    FittingPieces(Words(t), parts, width, w);
    FlattenIn(groups, piece);
    var l :| 0 <= l < |groups| && piece in groups[l];
    JoinContains(groups[l], piece);
    LineAt(groups, l);
  }

  lemma FittingPieces(words: seq<Text>, parts: seq<seq<Text>>, width: nat, w: Text)
    requires Pieces(words, parts, width) && w in words && Width(w) <= width
    ensures Piece(w, w, true) in Flatten(MarkAll(words, parts))
  {
    hide Width, Flatten, Full;
    var i :| 0 <= i < |words| && words[i] == w;
    assert parts[i] == [w];
    assert MarkAll(words, parts)[i][0] == Piece(w, w, true);
    FlattenIn(MarkAll(words, parts), Piece(w, w, true));
  }

  lemma LineAt(groups: seq<seq<Piece>>, l: nat)
    requires l < |groups|
    ensures l < |Lines(groups)| && Lines(groups)[l] == Join(groups[l])
  {
  }

  lemma {:induction false} FlattenIn<T>(parts: seq<seq<T>>, x: T)
    ensures x in Flatten(parts) <==> exists i :: 0 <= i < |parts| && x in parts[i]
  {
    if parts != [] {
      var last := |parts| - 1;
      FlattenIn(parts[..last], x);
      assert forall i | 0 <= i < last :: parts[..last][i] == parts[i];
      assert x in parts[last] ==> x in Flatten(parts);
      if i :| 0 <= i < last && x in parts[i] {
        assert x in parts[..last][i];
      }
    }
  }

  lemma {:induction false} JoinContains(pieces: seq<Piece>, piece: Piece)
    requires piece in pieces
    ensures exists before, after :: Join(pieces) == before + piece.text + after
  {
    var last := |pieces| - 1;
    if |pieces| == 1 {
      assert Join(pieces) == [] + piece.text + [];
    } else if pieces[last] == piece {
      assert Join(pieces) == (Join(pieces[..last]) + [SPACE]) + piece.text + [];
    } else {
      JoinContains(pieces[..last], piece);
      var before, after :| Join(pieces[..last]) == before + piece.text + after;
      assert Join(pieces) == before + piece.text + (after + [SPACE] + pieces[last].text);
    }
  }

  lemma WidthSnoc(line: Text, g: Glyph)
    ensures Width(line + [g]) == Width(line) + g.width
  {
    assert (line + [g])[..|line|] == line;
  }

  /** The characters that are not blank on the finished lines and the open one. */
  function Shown(result: seq<Text>, line: Text): Text {
    Flatten(InkOf(result)) + Ink(line)
  }

  lemma ShownBreak(result: seq<Text>, line: Text)
    ensures Shown(result + [line], []) == Shown(result, line) == Flatten(InkOf(result + [line]))
  {
    InkOfSnoc(result, line);
  }

  lemma ShownNone(result: seq<Text>)
    ensures Shown(result, []) == Flatten(InkOf(result))
  {
  }

  lemma ShownSnoc(result: seq<Text>, line: Text, g: Glyph)
    ensures Shown(result, line + [g]) == Shown(result, line) + if g.blank then [] else [g]
  {
    assert (line + [g])[..|line|] == line;
  }

  /** A word no wider than what is left of the line goes on it whole; otherwise it starts a
      line and is broken where a line is full. */
  method AppendWord(done: seq<Text>, start: Text, word: Text, width: nat)
      returns (result: seq<Text>, line: Text, ghost pieces: seq<Text>)
    requires IsWord(word) && (start == [] || Width(start) + Width(word) <= width)
    requires forall i | 0 <= i < |done| :: Fits(done[i], width)
    ensures line != [] && Fits(line, width)
    ensures forall i | 0 <= i < |result| :: Fits(result[i], width)
    ensures Shown(result, line) == Shown(done, start) + word
    ensures pieces != [] && Flatten(pieces) == word && Full(pieces, width)
    ensures Width(start) + Width(word) <= width ==> pieces == [word]
    ensures result == done + pieces[..|pieces| - 1]
    ensures line == start + pieces[|pieces| - 1]
  {
    hide Shown, Width, Flatten, Full, Breaking;
    result, line := done, start;
    ghost var closed: seq<Text> := [];
    NothingBroken(width);
    WidthNone();
    for k := 0 to |word|
      invariant Fits(line, width)
      invariant k > 0 ==> line != []
      invariant forall i | 0 <= i < |result| :: Fits(result[i], width)
      invariant Shown(result, line) == Shown(done, start) + word[..k]
      invariant result == done + closed
      invariant start == [] ==> Breaking(closed, line, width, word[..k])
      invariant Width(start) + Width(word) <= width ==> closed == [] && line == start + word[..k]
    {
      var g := word[k];
      assert word[..k + 1] == word[..k] + [g];
      WidthUpTo(start, word, k);
      if start == [] {
        NextCharacter(closed, line, g, width, word[..k]);
      }
      if Width(line) + g.width > width && line != [] {
        ShownBreak(result, line);
        closed := closed + [line];
        result, line := result + [line], [];
      }
      WidthSnoc(line, g);
      ShownSnoc(result, line, g);
      line := line + [g];
    }
    assert word[..|word|] == word;
    pieces := if Width(start) + Width(word) <= width then [word] else closed + [line];
    FlattenOne(word);
    FullOne(word, width);
    if start == [] {
      AllBroken(closed, line, width, word);
    }
  }

  /** The characters `before` of a word that started a line: full lines and the open one. */
  ghost predicate Breaking(closed: seq<Text>, line: Text, width: nat, before: Text) {
    && Flatten(closed) + line == before
    && if line == [] then closed == [] else Full(closed + [line], width)
  }

  lemma NothingBroken(width: nat)
    ensures Breaking([], [], width, [])
  {
  }

  lemma AllBroken(closed: seq<Text>, line: Text, width: nat, word: Text)
    requires Breaking(closed, line, width, word) && line != []
    ensures Flatten(closed + [line]) == word && Full(closed + [line], width)
  {
    FlattenSnoc(closed, line);
  }

  /** One more character of a word, on its line or on the next. */
  lemma NextCharacter(closed: seq<Text>, line: Text, g: Glyph, width: nat, before: Text)
    requires Breaking(closed, line, width, before)
    ensures if Width(line) + g.width > width && line != [] then Breaking(closed + [line], [] + [g], width, before + [g])
            else Breaking(closed, line + [g], width, before + [g])
  {
    hide Flatten, Width, Full;
    assert [] + [g] == [g];
    if line == [] {
      assert [] + [line + [g]] == [[g]];
      FullOne([g], width);
    } else {
      FullSnoc(closed, line, g, width);
      FlattenSnoc(closed, line);
    }
    assert Flatten(closed) + (line + [g]) == Flatten(closed) + line + [g];
  }

  lemma FullOne(piece: Text, width: nat)
    ensures Full([piece], width)
  {
  }

  lemma WidthNone()
    ensures Width([]) == 0
  {
  }

  lemma WidthUpTo(start: Text, word: Text, k: nat)
    requires k < |word|
    ensures Width(start + word[..k]) + word[k].width <= Width(start) + Width(word)
  {
    assert word == word[..k] + [word[k]] + word[k + 1..];
    WidthConcat(start, word[..k]);
    WidthSnoc(word[..k], word[k]);
    WidthConcat(word[..k] + [word[k]], word[k + 1..]);
  }

  lemma JoinNone()
    ensures Join([]) == []
  {
  }

  lemma JoinSnoc(pieces: seq<Piece>, piece: Piece)
    ensures Join(pieces + [piece]) == if pieces == [] then piece.text else Join(pieces) + [SPACE] + piece.text
  {
    if pieces != [] {
      assert (pieces + [piece])[..|pieces|] == pieces;
    }
  }

  lemma JoinOne(piece: Piece)
    ensures Join([piece]) == piece.text
  {
  }

  lemma FlattenSnoc<T>(parts: seq<seq<T>>, part: seq<T>)
    ensures Flatten(parts + [part]) == Flatten(parts) + part
  {
    assert (parts + [part])[..|parts|] == parts;
  }

  lemma LinesSnoc(groups: seq<seq<Piece>>, group: seq<Piece>)
    ensures Lines(groups + [group]) == Lines(groups) + [Join(group)]
  {
  }

  method WrapCell(t: Text, width: nat) returns (result: seq<Text>)
    ensures Wraps(t, width, result)
  {
    hide Join, Flatten, InkOf, Ink, Lines, Words, Distributed, Filling, Width, Shown, Singles, Greedy, Full, Marked, MarkAll;
    var words := Words(t);
    var line: Text := [];
    result := [];
    ghost var parts: seq<seq<Text>>, groups: seq<seq<Piece>>, current: seq<Piece> := [], [], [];
    WordsMean(t);
    StartWrap(words, width);
    WidthNone();
    for i := 0 to |words|
      invariant forall k | 0 <= k < |result| :: Fits(result[k], width)
      invariant Fits(line, width)
      invariant line == [] <==> i == 0
      invariant Shown(result, line) == Flatten(words[..i])
      invariant Filling(words[..i], parts, groups, current, width, result, line)
    {
      var word := words[i];
      ghost var before, full := line, result;
      assert words[..i + 1] == words[..i] + [word];
      FlattenSnoc(words[..i], word);
      if line != [] && Width(line) + 1 + Width(word) > width {
        ShownBreak(result, line);
        result, line := result + [line], [];
      }
      if line != [] {
        WidthSnoc(line, SPACE);
        ShownSnoc(result, line, SPACE);
        line := line + [SPACE];
      }
      ghost var pieces;
      result, line, pieces := AppendWord(result, line, word, width);
      if before != [] && Width(before) + 1 + Width(word) <= width {
        ExtendLine(words[..i], parts, groups, current, width, full, before, word);
        assert pieces == [word];
        assert result == full && line == before + [SPACE] + word;
        current := current + [Piece(word, word, true)];
      } else {
        CloseLine(words[..i], parts, groups, current, width, full, before, word, pieces[0]);
        ghost var closed := if before == [] then groups else groups + [current];
        StartLine(words[..i], parts, closed, width, word, pieces);
        groups := closed + Singles(Marked(word, pieces)[..|pieces| - 1]);
        current := [Marked(word, pieces)[|pieces| - 1]];
        assert line == pieces[|pieces| - 1];
        assert result == (if before == [] then full else full + [before]) + pieces[..|pieces| - 1];
      }
      parts := parts + [pieces];
    }
    assert words[..|words|] == words;
    EndWrap(words, parts, groups, current, width, result, line);
    ShownBreak(result, line);
    ShownNone(result);
    if line != [] || result == [] {
      result := result + [line];
    }
  }

  /** Part way through wrapping: the finished lines hold `groups`, the open one `current`. */
  predicate Filling(words: seq<Text>, parts: seq<seq<Text>>, groups: seq<seq<Piece>>, current: seq<Piece>,
                    width: nat, result: seq<Text>, line: Text)
  {
    && (words == [] <==> current == [])
    && (words == [] ==> groups == [])
    && Pieces(words, parts, width)
    && Flatten(groups) + current == Flatten(MarkAll(words, parts))
    && Greedy(if current == [] then groups else groups + [current], width)
    && result == Lines(groups)
    && line == Join(current)
  }

  function Singles<T>(items: seq<T>): (singles: seq<seq<T>>)
    ensures |singles| == |items|
  {
    seq(|items|, i requires 0 <= i < |items| => [items[i]])
  }

  lemma SinglesSnoc<T>(items: seq<T>, n: nat)
    requires 0 < n <= |items|
    ensures Singles(items[..n]) == Singles(items[..n - 1]) + [[items[n - 1]]]
  {
  }

  /** Lines of one piece each, for the first `n` pieces of a broken word. */
  lemma {:induction false} SinglesMean(groups: seq<seq<Piece>>, word: Text, texts: seq<Text>, n: nat)
    requires n <= |texts|
    ensures Flatten(groups + Singles(Marked(word, texts)[..n])) == Flatten(groups) + Marked(word, texts)[..n]
    ensures Lines(groups + Singles(Marked(word, texts)[..n])) == Lines(groups) + texts[..n]
  {
    hide *;
    var part := Marked(word, texts);
    var lines := groups + Singles(part[..n]);
    if n == 0 {
      assert part[..0] == [] && texts[..0] == [];
      assert lines == groups;
    } else {
      var before, piece := groups + Singles(part[..n - 1]), part[n - 1];
      SinglesSnoc(part, n);
      assert lines == before + [[piece]];
      SinglesMean(groups, word, texts, n - 1);
      FlattenSnoc(before, [piece]);
      LinesSnoc(before, [piece]);
      JoinOne(piece);
      MarkedAt(word, texts, n - 1);
      assert part[..n] == part[..n - 1] + [piece] && texts[..n] == texts[..n - 1] + [piece.text];
      Regroup(Flatten(groups), part[..n - 1], [piece]);
      Regroup(Lines(groups), texts[..n - 1], [piece.text]);
    }
  }

  lemma MarkedAt(word: Text, texts: seq<Text>, i: nat)
    requires i < |texts|
    ensures Marked(word, texts)[i] == Piece(texts[i], word, i == 0)
  {
  }

  lemma LastApart<T>(s: seq<T>)
    requires s != []
    ensures s == s[..|s| - 1] + [s[|s| - 1]]
  {
  }

  lemma Regroup<T>(a: seq<T>, b: seq<T>, c: seq<T>)
    ensures a + (b + c) == a + b + c
  {
  }

  lemma {:induction false} SinglesGreedy(groups: seq<seq<Piece>>, word: Text, texts: seq<Text>, n: nat, width: nat)
    requires 0 < n <= |texts| && Full(texts, width)
    requires Greedy(groups + [[Piece(texts[0], word, true)]], width)
    ensures Greedy(groups + Singles(Marked(word, texts)[..n]), width)
  {
    var part := Marked(word, texts);
    var lines, before := groups + Singles(part[..n]), groups + Singles(part[..n - 1]);
    SinglesSnoc(part, n);
    assert lines == before + [[part[n - 1]]];
    if n == 1 {
      assert before == groups;
    } else {
      SinglesGreedy(groups, word, texts, n - 1, width);
      SinglesSnoc(part, n - 1);
      assert before[|before| - 1] == [part[n - 2]];
      JoinOne(part[n - 2]);
      hide Greedy, Join;
      assert NoRoom(texts[n - 2], part[n - 1], width);
      GreedyLast(before, [part[n - 1]], width);
    }
  }

  lemma SinglesAllGreedy(groups: seq<seq<Piece>>, word: Text, texts: seq<Text>, width: nat)
    requires texts != [] && Full(texts, width)
    requires Greedy(groups + [[Piece(texts[0], word, true)]], width)
    ensures var part, last := Marked(word, texts), |texts| - 1;
            Greedy(groups + Singles(part[..last]) + [[part[last]]], width)
  {
    hide Greedy, Singles, Full;
    var part, last := Marked(word, texts), |texts| - 1;
    SinglesGreedy(groups, word, texts, |texts|, width);
    SinglesSnoc(part, |texts|);
    assert groups + (Singles(part[..last]) + [[part[last]]]) == groups + Singles(part[..last]) + [[part[last]]];
  }

  lemma StartWrap(words: seq<Text>, width: nat)
    ensures Filling(words[..0], [], [], [], width, [], [])
    ensures Shown([], []) == Flatten(words[..0])
  {
  }

  lemma GreedyLast(groups: seq<seq<Piece>>, last: seq<Piece>, width: nat)
    ensures Greedy(groups + [last], width) <==>
              && Greedy(groups, width)
              && last != [] && (forall k | 0 < k < |last| :: last[k].first)
              && (groups != [] ==> NoRoom(Join(groups[|groups| - 1]), last[0], width))
  {
    hide Join, Width;
    assert (groups + [last])[..|groups|] == groups;
  }

  lemma PiecesSnoc(words: seq<Text>, parts: seq<seq<Text>>, width: nat, word: Text, pieces: seq<Text>)
    requires Pieces(words, parts, width)
    requires Flatten(pieces) == word && Full(pieces, width) && (Width(word) <= width ==> pieces == [word])
    ensures Pieces(words + [word], parts + [pieces], width)
    ensures Flatten(MarkAll(words + [word], parts + [pieces])) == Flatten(MarkAll(words, parts)) + Marked(word, pieces)
  {
    FlattenSnoc(MarkAll(words, parts), Marked(word, pieces));
    hide Flatten, Width, Full;
    assert MarkAll(words + [word], parts + [pieces]) == MarkAll(words, parts) + [Marked(word, pieces)];
  }

  /** A word for which there is no room closes the line. */
  lemma CloseLine(words: seq<Text>, parts: seq<seq<Text>>, groups: seq<seq<Piece>>, current: seq<Piece>,
                  width: nat, result: seq<Text>, line: Text, word: Text, text: Text)
    requires Filling(words, parts, groups, current, width, result, line)
    requires line == [] <==> words == []
    requires line != [] ==> Width(line) + 1 + Width(word) > width
    ensures Pieces(words, parts, width)
    ensures var closed := if line == [] then groups else groups + [current];
            && Flatten(closed) == Flatten(MarkAll(words, parts))
            && Lines(closed) == (if line == [] then result else result + [line])
            && Greedy(closed + [[Piece(text, word, true)]], width)
  {
    hide Join, Flatten, Lines, Greedy, Width, Pieces, MarkAll;
    JoinNone();
    FlattenSnoc(groups, current);
    LinesSnoc(groups, current);
    GreedyLast(if line == [] then groups else groups + [current], [Piece(text, word, true)], width);
  }

  /** It starts the next one, and leaves all its pieces but the last on lines of their own. */
  lemma StartLine(words: seq<Text>, parts: seq<seq<Text>>, closed: seq<seq<Piece>>, width: nat, word: Text,
                  pieces: seq<Text>)
    requires Pieces(words, parts, width) && Flatten(closed) == Flatten(MarkAll(words, parts))
    requires pieces != [] && Flatten(pieces) == word && Full(pieces, width)
    requires Greedy(closed + [[Piece(pieces[0], word, true)]], width)
    requires Width(word) <= width ==> pieces == [word]
    ensures var part, last := Marked(word, pieces), |pieces| - 1;
            Filling(words + [word], parts + [pieces], closed + Singles(part[..last]), [part[last]], width,
                    Lines(closed) + pieces[..last], pieces[last])
  {
    hide *;
    var part, last := Marked(word, pieces), |pieces| - 1;
    PiecesSnoc(words, parts, width, word, pieces);
    SinglesMean(closed, word, pieces, last);
    SinglesAllGreedy(closed, word, pieces, width);
    MarkedAt(word, pieces, last);
    JoinOne(part[last]);
    LastApart(part);
    Regroup(Flatten(closed), part[..last], [part[last]]);
    Filled(words + [word], parts + [pieces], closed + Singles(part[..last]), [part[last]], width,
           Lines(closed) + pieces[..last], pieces[last]);
  }

  lemma Filled(words: seq<Text>, parts: seq<seq<Text>>, groups: seq<seq<Piece>>, current: seq<Piece>,
               width: nat, result: seq<Text>, line: Text)
    requires words != [] && current != [] && Pieces(words, parts, width)
    requires Flatten(groups) + current == Flatten(MarkAll(words, parts)) && Greedy(groups + [current], width)
    requires result == Lines(groups) && line == Join(current)
    ensures Filling(words, parts, groups, current, width, result, line)
  {
  }

  lemma ExtendLine(words: seq<Text>, parts: seq<seq<Text>>, groups: seq<seq<Piece>>, current: seq<Piece>,
                   width: nat, result: seq<Text>, line: Text, word: Text)
    requires Filling(words, parts, groups, current, width, result, line)
    requires line != [] && words != [] && Width(line) + 1 + Width(word) <= width
    ensures Filling(words + [word], parts + [[word]], groups, current + [Piece(word, word, true)], width, result,
                    line + [SPACE] + word)
  {
    hide Join, Flatten, Lines, Greedy, Width, Pieces, MarkAll, Marked;
    var piece := Piece(word, word, true);
    MarkedWhole(word);
    FlattenOne(word);
    FullOne(word, width);
    PiecesSnoc(words, parts, width, word, [word]);
    JoinSnoc(current, piece);
    GreedyExtend(groups, current, piece, width);
    Regroup(Flatten(groups), current, [piece]);
  }

  lemma MarkedWhole(word: Text)
    ensures Marked(word, [word]) == [Piece(word, word, true)]
  {
  }

  lemma GreedyExtend(groups: seq<seq<Piece>>, current: seq<Piece>, piece: Piece, width: nat)
    requires current != [] && Greedy(groups + [current], width) && piece.first
    ensures Greedy(groups + [current + [piece]], width)
  {
    hide Join, Greedy, Width;
    GreedyLast(groups, current, width);
    assert (current + [piece])[0] == current[0];
    GreedyLast(groups, current + [piece], width);
  }

  lemma EndWrap(words: seq<Text>, parts: seq<seq<Text>>, groups: seq<seq<Piece>>, current: seq<Piece>,
                width: nat, result: seq<Text>, line: Text)
    requires Filling(words, parts, groups, current, width, result, line)
    requires line == [] <==> words == []
    ensures var all := if current == [] then groups else groups + [current];
            Distributed(words, parts, all, width,
                        if line != [] || result == [] then result + [line] else result)
  {
    if current != [] {
      FlattenSnoc(groups, current);
      LinesSnoc(groups, current);
    }
  }
}
