/** Reassembly of the table markup (`TableSystem.get_pred_html`): walk the
    structure tokens, count the cell-closing ones, and before each of them
    inject the recognised texts matched to that cell. */
module TableHtml {
  import opened Errors

  /** One recognition result, the pair `(text, score)`. */
  datatype OcrRecord = OcrRecord(text: string, score: real)

  /** The two results of `get_pred_html`: the joined markup and the list of
      pieces it was joined from. */
  datatype PredHtml = PredHtml(html: string, pieces: seq<string>)

  /** `sub` occurs in `s` starting at position `k`. */
  predicate OccursAt(s: string, sub: string, k: nat)
  {
    k + |sub| <= |s| && s[k..k + |sub|] == sub
  }

  /** Python's `sub in s` on two strings: `sub` occurs somewhere in `s`. */
  predicate Contains(s: string, sub: string)
  {
    exists k: nat :: k <= |s| && OccursAt(s, sub, k)
  }

  /** Python's `e in record` on the tuple `(text, score)`: true exactly when
      one element equals `e`. The score is a number and never equals a
      string, so only the text can match, and only as a whole. */
  predicate RecordHas(record: OcrRecord, e: string)
  {
    record.text == e
  }

  /** Python's `s[k:]`. */
  function DropFirst(s: string, k: nat): (r: string)
    ensures |r| == if k <= |s| then |s| - k else 0
    ensures forall j :: 0 <= j < |r| ==> r[j] == s[k + j]
  {
    if k <= |s| then s[k..] else []
  }

  /** Python's `s[:-k]` for `k > 0`. */
  function DropLast(s: string, k: nat): (r: string)
    requires k > 0
    ensures |r| == if k <= |s| then |s| - k else 0
    ensures forall j :: 0 <= j < |r| ==> r[j] == s[j]
  {
    if k <= |s| then s[..|s| - k] else []
  }

  /** `list.extend(s)` on a string adds its characters one by one. */
  function Chars(s: string): (pieces: seq<string>)
    ensures |pieces| == |s|
  {
    seq(|s|, k requires 0 <= k < |s| => [s[k]])
  }

  /** `''.join(pieces)`. */
  function Join(pieces: seq<string>): string
  {
    if pieces == [] then [] else Join(pieces[..|pieces| - 1]) + pieces[|pieces| - 1]
  }

  /** What the text at position `i` of a cell with `count` texts contributes.
      A lone text is emitted verbatim. With several texts, an empty one is
      skipped; one leading space is dropped; if `<b>` occurs anywhere the
      first three characters are dropped; if `</b>` occurs anywhere the last
      four are dropped; a now-empty fragment is skipped; and a space is added
      unless the fragment is last in the list or already ends in one. */
  function Fragment(content: string, i: nat, count: nat): string
  {
    if count <= 1 then content
    else if |content| == 0 then []
    else
      var c := Cleaned(content);
      if |c| == 0 then []
      else if i != count - 1 && c[|c| - 1] != ' ' then c + " "
      else c
  }

  /** The three rewriting steps a non-empty fragment of a multi-text cell
      goes through, in order. */
  function Cleaned(content: string): string
    requires |content| > 0
  {
    var c1 := if content[0] == ' ' then content[1..] else content;
    var c2 := if Contains(c1, "<b>") then DropFirst(c1, 3) else c1;
    if Contains(c2, "</b>") then DropLast(c2, 4) else c2
  }

  /** In a cell of several texts, every fragment but the last that is not
      skipped ends in a space, so neighbouring texts never run together; an
      empty text is skipped. */
  lemma FragmentSeparated(t: string, i: nat, count: nat)
    requires count > 1 && i < count - 1
    ensures |t| == 0 ==> Fragment(t, i, count) == []
    ensures |Fragment(t, i, count)| > 0 ==> Fragment(t, i, count)[|Fragment(t, i, count)| - 1] == ' '
  {
  }

  /** The last text of a cell of several gets no separating space: its
      fragment is the cleaned text itself. */
  lemma FragmentLast(t: string, count: nat)
    requires count > 1 && |t| > 0
    ensures Fragment(t, count - 1, count) == Cleaned(t)
  {
  }

  /** A text wrapped in one bold pair loses exactly that pair. */
  lemma BoldPairStripped(x: string)
    ensures Cleaned("<b>" + x + "</b>") == x
  {
    var t := "<b>" + x + "</b>";
    assert t[0] == '<';
    assert OccursAt(t, "<b>", 0);
    var c2 := DropFirst(t, 3);
    assert c2 == x + "</b>";
    assert OccursAt(c2, "</b>", |x|);
    assert DropLast(c2, 4) == x;
  }

  /** The clean-up only trims characters off the two ends of a text and
      never changes its middle. */
  lemma CleanedTrimsEnds(t: string)
    requires |t| > 0
    ensures exists a, b :: 0 <= a <= b <= |t| && Cleaned(t) == t[a..b]
  {
    var a := if t[0] == ' ' then 1 else 0;
    var c1 := t[a..];
    assert c1 == (if t[0] == ' ' then t[1..] else t);
    var a2 := if Contains(c1, "<b>") then (if 3 <= |c1| then a + 3 else |t|) else a;
    var c2 := t[a2..];
    assert c2 == (if Contains(c1, "<b>") then DropFirst(c1, 3) else c1);
    var b := if Contains(c2, "</b>") then (if 4 <= |c2| then |t| - 4 else a2) else |t|;
    assert Cleaned(t) == t[a2..b];
  }

  /** The fragments of `texts`, in order, for a cell holding `count` texts. */
  function Merged(texts: seq<string>, count: nat): string
  {
    if texts == [] then []
    else Merged(texts[..|texts| - 1], count) + Fragment(texts[|texts| - 1], |texts| - 1, count)
  }

  function Texts(records: seq<OcrRecord>): (texts: seq<string>)
    ensures |texts| == |records|
    ensures forall k :: 0 <= k < |records| ==> texts[k] == records[k].text
  {
    seq(|records|, k requires 0 <= k < |records| => records[k].text)
  }

  /** Whether the merged cell is wrapped in `<b>` ... `</b>`: the cell has
      more than one text and the first record contains the element `"<b>"`. */
  predicate BoldCell(records: seq<OcrRecord>)
    requires |records| > 0
  {
    RecordHas(records[0], "<b>") && |records| > 1
  }

  /** The whole text injected into a cell whose matched records are `records`. */
  function CellContent(records: seq<OcrRecord>): (content: string)
    requires |records| > 0
    ensures |records| == 1 ==> content == records[0].text
  {
    var bold := BoldCell(records);
    assert |records| == 1 ==> Merged(Texts(records), 1) == records[0].text by {
      if |records| == 1 {
        assert Texts(records) == [records[0].text];
        assert [records[0].text][..0] == [];
      }
    }
    (if bold then "<b>" else []) + Merged(Texts(records), |records|) + (if bold then "</b>" else [])
  }

  predicate AllBelow(idxs: seq<nat>, n: nat)
  {
    forall k :: 0 <= k < |idxs| ==> idxs[k] < n
  }

  function Records(idxs: seq<nat>, ocrContents: seq<OcrRecord>): (records: seq<OcrRecord>)
    requires AllBelow(idxs, |ocrContents|)
    ensures |records| == |idxs|
    ensures forall k :: 0 <= k < |idxs| ==> records[k] == ocrContents[idxs[k]]
  {
    seq(|idxs|, k requires 0 <= k < |idxs| => ocrContents[idxs[k]])
  }

  /** The text injected before the closing tag of cell `td`: nothing for a
      cell without a match list; an `IndexError` for an empty list or an
      index past the recognition results; otherwise the merged content. */
  function CellInjection(td: nat, matchedIndex: map<nat, seq<nat>>, ocrContents: seq<OcrRecord>): (r: Result<string>)
    ensures td !in matchedIndex ==> r == Ok([])
    ensures r.Err? <==> td in matchedIndex && (|matchedIndex[td]| == 0 || !AllBelow(matchedIndex[td], |ocrContents|))
  {
    if td !in matchedIndex then Ok([])
    else
      var idxs := matchedIndex[td];
      if |idxs| == 0 || !AllBelow(idxs, |ocrContents|) then Err(IndexError)
      else Ok(CellContent(Records(idxs, ocrContents)))
  }

  predicate IsCellClose(tag: string)
  {
    Contains(tag, "</td>")
  }

  /** The number of cell-closing tags among `tags`. */
  function CountCells(tags: seq<string>): nat
  {
    if tags == [] then 0
    else CountCells(tags[..|tags| - 1]) + (if IsCellClose(tags[|tags| - 1]) then 1 else 0)
  }

  /** The pieces `get_pred_html` accumulates for `tags`: each tag in order,
      a cell-closing one preceded by the characters injected for the cell
      whose number is the count of cell-closing tags before it. */
  function Render(tags: seq<string>, matchedIndex: map<nat, seq<nat>>, ocrContents: seq<OcrRecord>): Result<seq<string>>
  {
    if tags == [] then Ok([])
    else
      var init := tags[..|tags| - 1];
      var tag := tags[|tags| - 1];
      match Render(init, matchedIndex, ocrContents)
      case Err(e) => Err(e)
      case Ok(pieces) =>
        if IsCellClose(tag) then
          match CellInjection(CountCells(init), matchedIndex, ocrContents)
          case Err(e) => Err(e)
          case Ok(content) => Ok(pieces + Chars(content) + [tag])
        else Ok(pieces + [tag])
  }

  lemma {:induction false} JoinAppend(a: seq<string>, b: seq<string>)
    ensures Join(a + b) == Join(a) + Join(b)
    decreases |b|
  {
    if b != [] {
      assert (a + b)[..|a + b| - 1] == a + b[..|b| - 1];
      JoinAppend(a, b[..|b| - 1]);
    } else {
      assert a + b == a;
    }
  }

  /** Joining the characters `extend` pushed gives back the string. */
  lemma {:induction false} JoinChars(s: string)
    ensures Join(Chars(s)) == s
    decreases |s|
  {
    if s != [] {
      var n := |s| - 1;
      assert Chars(s) == Chars(s[..n]) + [[s[n]]];
      JoinChars(s[..n]);
      assert s == s[..n] + [s[n]];
    }
  }

  lemma CharsAppend(a: string, b: string)
    ensures Chars(a + b) == Chars(a) + Chars(b)
  {
  }

  /** Extending a list by the characters of `a` and then of `b` is extending
      it by the characters of `a + b`. */
  lemma ExtendChars(pieces: seq<string>, a: string, b: string)
    ensures pieces + Chars(a) + Chars(b) == pieces + Chars(a + b)
  {
    CharsAppend(a, b);
    assert pieces + Chars(a) + Chars(b) == pieces + (Chars(a) + Chars(b));
  }

  lemma ExtendThree(pieces: seq<string>, a: seq<string>, b: seq<string>, c: seq<string>)
    ensures pieces + a + b + c == pieces + (a + b + c)
  {
  }

  /** The pieces pushed for a cell, from the optional opening tag through
      the fragments to the optional closing tag, are its content's characters. */
  lemma CellAssembled(endHtml: seq<string>, cell: seq<nat>, ocrContents: seq<OcrRecord>,
                      texts: seq<string>, bold: bool, out: seq<string>)
    requires |cell| > 0 && AllBelow(cell, |ocrContents|) && |texts| == |cell|
    requires forall k :: 0 <= k < |cell| ==> texts[k] == ocrContents[cell[k]].text
    requires bold == (RecordHas(ocrContents[cell[0]], "<b>") && |cell| > 1)
    requires out == (if bold then endHtml + Chars("<b>") else endHtml) + Chars(Merged(texts, |cell|))
    ensures (if bold then out + Chars("</b>") else out) == endHtml + Chars(CellContent(Records(cell, ocrContents)))
  {
    var open: string := if bold then "<b>" else [];
    var close: string := if bold then "</b>" else [];
    var middle := Chars(Merged(texts, |cell|));
    CellContentChars(cell, ocrContents, texts);
    assert out == endHtml + Chars(open) + middle by {
      if !bold {
        assert Chars(open) == [];
      }
    }
    ExtendThree(endHtml, Chars(open), middle, Chars(close));
    assert (if bold then out + Chars("</b>") else out) == out + Chars(close) by {
      if !bold {
        assert Chars(close) == [];
      }
    }
  }

  lemma MergedSnoc(texts: seq<string>, text: string, count: nat)
    ensures Merged(texts + [text], count) == Merged(texts, count) + Fragment(text, |texts|, count)
  {
    var longer := texts + [text];
    assert longer[..|longer| - 1] == texts;
  }

  /** Reading one more index extends the texts read so far. */
  lemma TextsStep(cell: seq<nat>, i: nat, ocrContents: seq<OcrRecord>)
    requires i < |cell| && AllBelow(cell[..i], |ocrContents|) && cell[i] < |ocrContents|
    ensures AllBelow(cell[..i + 1], |ocrContents|)
    ensures Texts(Records(cell[..i + 1], ocrContents)) ==
      Texts(Records(cell[..i], ocrContents)) + [ocrContents[cell[i]].text]
  {
    assert forall k :: 0 <= k < i ==> cell[..i + 1][k] == cell[..i][k];
  }

  /** Pushing the characters of one more text's fragment keeps the pushed
      list equal to the characters of the merged fragments. */
  lemma PushStep(out: seq<string>, pushed: seq<string>, texts: seq<string>, text: string, count: nat)
    requires pushed == out + Chars(Merged(texts, count))
    ensures pushed + Chars(Fragment(text, |texts|, count)) == out + Chars(Merged(texts + [text], count))
  {
    MergedSnoc(texts, text, count);
    ExtendChars(out, Merged(texts, count), Fragment(text, |texts|, count));
  }

  /** Once some prefix of the tags fails, the whole walk fails. */
  lemma {:induction false} RenderErrSticks(tags: seq<string>, n: nat, matchedIndex: map<nat, seq<nat>>, ocrContents: seq<OcrRecord>)
    requires n <= |tags|
    requires Render(tags[..n], matchedIndex, ocrContents).Err?
    ensures Render(tags, matchedIndex, ocrContents).Err?
    decreases |tags|
  {
    if n < |tags| {
      var init := tags[..|tags| - 1];
      assert init[..n] == tags[..n];
      RenderErrSticks(init, n, matchedIndex, ocrContents);
    } else {
      assert tags[..n] == tags;
    }
  }

  /** Cell `c` has a match list that `get_pred_html` cannot read: an empty
      list or an index past the recognition results. */
  predicate BadCell(c: nat, matchedIndex: map<nat, seq<nat>>, ocrContents: seq<OcrRecord>)
  {
    c in matchedIndex && (|matchedIndex[c]| == 0 || !AllBelow(matchedIndex[c], |ocrContents|))
  }

  /** The walk fails exactly when one of the cells it closes has an
      unreadable match list. */
  lemma {:induction false} RenderOkIff(tags: seq<string>, matchedIndex: map<nat, seq<nat>>, ocrContents: seq<OcrRecord>)
    ensures Render(tags, matchedIndex, ocrContents).Ok? <==>
      forall c: nat :: c < CountCells(tags) ==> !BadCell(c, matchedIndex, ocrContents)
    decreases |tags|
  {
    if tags != [] {
      var init := tags[..|tags| - 1];
      RenderOkIff(init, matchedIndex, ocrContents);
      var n := CountCells(init);
      if IsCellClose(tags[|tags| - 1]) {
        assert CountCells(tags) == n + 1;
        assert CellInjection(n, matchedIndex, ocrContents).Err? <==> BadCell(n, matchedIndex, ocrContents);
      } else {
        assert CountCells(tags) == n;
      }
    }
  }

  /** With no match lists the walk reproduces the structure tokens. */
  lemma {:induction false} RenderPassThrough(tags: seq<string>, ocrContents: seq<OcrRecord>)
    ensures Render(tags, map[], ocrContents) == Ok(tags)
    decreases |tags|
  {
    if tags != [] {
      var init := tags[..|tags| - 1];
      RenderPassThrough(init, ocrContents);
      assert init + [tags[|tags| - 1]] == tags;
      if IsCellClose(tags[|tags| - 1]) {
        assert CellInjection(CountCells(init), map[], ocrContents) == Ok([]);
        assert Chars([]) == [];
        assert init + Chars([]) == init;
      }
    }
  }

  /** The accumulator only grows: the pieces for a prefix of the tokens are
      a prefix of the pieces for all of them. */
  lemma {:induction false} RenderExtends(tags: seq<string>, n: nat, matchedIndex: map<nat, seq<nat>>, ocrContents: seq<OcrRecord>)
    requires n <= |tags|
    requires Render(tags, matchedIndex, ocrContents).Ok?
    ensures Render(tags[..n], matchedIndex, ocrContents).Ok?
    ensures Render(tags[..n], matchedIndex, ocrContents).value <= Render(tags, matchedIndex, ocrContents).value
    decreases |tags|
  {
    if n < |tags| {
      var init := tags[..|tags| - 1];
      assert init[..n] == tags[..n];
      RenderExtends(init, n, matchedIndex, ocrContents);
    } else {
      assert tags[..n] == tags;
    }
  }

  /** Python's `' '.join(texts)`. */
  function SpaceJoined(texts: seq<string>): string
  {
    if |texts| == 0 then []
    else if |texts| == 1 then texts[0]
    else SpaceJoined(texts[..|texts| - 1]) + " " + texts[|texts| - 1]
  }

  /** A text the clean-up leaves alone: non-empty, no space at either end,
      and no `<` anywhere, so no bold marker in it. */
  predicate Plain(text: string)
  {
    |text| > 0 && text[0] != ' ' && text[|text| - 1] != ' ' &&
    forall j :: 0 <= j < |text| ==> text[j] != '<'
  }

  /** A string without `<` contains no marker that starts with `<`. */
  lemma NoAngleNoMarker(s: string, marker: string)
    requires forall j :: 0 <= j < |s| ==> s[j] != '<'
    requires |marker| > 0 && marker[0] == '<'
    ensures !Contains(s, marker)
  {
  }

  lemma PlainFragment(text: string, i: nat, count: nat)
    requires Plain(text) && count > 1
    ensures Fragment(text, i, count) == if i != count - 1 then text + " " else text
  {
    NoAngleNoMarker(text, "<b>");
    NoAngleNoMarker(text, "</b>");
  }

  /** The fragments of the first texts of a cell whose texts are all plain:
      the texts joined by single spaces, with a trailing space while more
      texts are to come. */
  lemma SpaceJoinedSnoc(init: seq<string>, last: string, merged: string, gap: string)
    requires merged == if init == [] then [] else SpaceJoined(init) + " "
    ensures merged + (last + gap) == SpaceJoined(init + [last]) + gap
  {
    var texts := init + [last];
    assert texts[..|init|] == init;
    if init != [] {
      assert SpaceJoined(texts) == SpaceJoined(init) + " " + last;
    }
  }

  lemma {:induction false} MergedPlainPrefix(texts: seq<string>, count: nat)
    requires |texts| <= count && count > 1
    requires forall k :: 0 <= k < |texts| ==> Plain(texts[k])
    ensures Merged(texts, count) == if |texts| == 0 then [] else
      SpaceJoined(texts) + (if |texts| < count then " " else [])
    decreases |texts|
  {
    if texts != [] {
      var init := texts[..|texts| - 1];
      var last := texts[|texts| - 1];
      assert init + [last] == texts;
      MergedPlainPrefix(init, count);
      PlainFragment(last, |init|, count);
      MergedSnoc(init, last, count);
      SpaceJoinedSnoc(init, last, Merged(init, count), if |texts| < count then " " else []);
    }
  }

  /** A cell holding several plain texts gets them joined by single
      spaces, as `' '.join` would. */
  lemma MergedPlain(texts: seq<string>)
    requires |texts| > 1
    requires forall k :: 0 <= k < |texts| ==> Plain(texts[k])
    ensures Merged(texts, |texts|) == SpaceJoined(texts)
  {
    MergedPlainPrefix(texts, |texts|);
  }

  /** The content of a cell holding two texts, in terms of their fragments. */
  lemma CellContentPair(r0: OcrRecord, r1: OcrRecord, f0: string, f1: string)
    requires f0 == Fragment(r0.text, 0, 2) && f1 == Fragment(r1.text, 1, 2)
    ensures var bold := r0.text == "<b>";
      CellContent([r0, r1]) == (if bold then "<b>" else []) + f0 + f1 + (if bold then "</b>" else [])
  {
    var texts := [r0.text, r1.text];
    assert Texts([r0, r1]) == texts;
    assert texts[..1] == [r0.text] && [r0.text][..0] == [];
    assert Merged([r0.text], 2) == Fragment(r0.text, 0, 2);
  }

  lemma InlineBoldFragment()
    ensures Fragment("<b>Q1</b>", 0, 2) == "Q1 "
  {
    assert OccursAt("<b>Q1</b>", "<b>", 0);
    var c2 := DropFirst("<b>Q1</b>", 3);
    assert c2 == "Q1</b>";
    assert OccursAt(c2, "</b>", 2);
    assert DropLast(c2, 4) == "Q1";
    assert Cleaned("<b>Q1</b>") == "Q1";
  }

  lemma TotalFragment()
    ensures Fragment("Total", 1, 2) == "Total"
  {
    PlainFragment("Total", 1, 2);
  }

  lemma BoldMarkerFragment()
    ensures Fragment("<b>", 0, 2) == []
  {
    assert OccursAt("<b>", "<b>", 0);
    assert DropFirst("<b>", 3) == [];
    assert !Contains([], "</b>");
    assert Cleaned("<b>") == [];
  }

  /** Bold markers inside a text are cut off by position: `<b>Q1</b>`
      followed by `Total` merges to `Q1 Total`, and the cell is not wrapped
      in bold because the first text is not exactly `<b>`. */
  lemma InlineBoldExample(s0: real, s1: real)
    ensures CellContent([OcrRecord("<b>Q1</b>", s0), OcrRecord("Total", s1)]) == "Q1 Total"
  {
    var r0 := OcrRecord("<b>Q1</b>", s0);
    var r1 := OcrRecord("Total", s1);
    InlineBoldFragment();
    TotalFragment();
    CellContentPair(r0, r1, "Q1 ", "Total");
    assert |r0.text| != 3;
    var none: string := [];
    assert none + "Q1 " == "Q1 ";
    assert "Q1 " + "Total" == "Q1 Total";
    assert "Q1 Total" + none == "Q1 Total";
  }

  /** A first text that is exactly `<b>` wraps the cell in bold and itself
      contributes nothing. */
  lemma BoldCellExample(s0: real, s1: real)
    ensures CellContent([OcrRecord("<b>", s0), OcrRecord("Total", s1)]) == "<b>Total</b>"
  {
    var r0 := OcrRecord("<b>", s0);
    var r1 := OcrRecord("Total", s1);
    BoldMarkerFragment();
    TotalFragment();
    CellContentPair(r0, r1, [], "Total");
    var none: string := [];
    assert "<b>" + none == "<b>";
    assert "<b>" + "Total" == "<b>Total";
    assert "<b>Total" + "</b>" == "<b>Total</b>";
  }

  /** Which of the tokens of a one-row, two-cell table close a cell. */
  lemma ExampleTagKinds()
    ensures IsCellClose("</td>")
    ensures !IsCellClose("<table>") && !IsCellClose("<tr>") && !IsCellClose("<td>")
    ensures !IsCellClose("</tr>") && !IsCellClose("</table>")
  {
    assert OccursAt("</td>", "</td>", 0);
    assert !Contains("<table>", "</td>") by {
      forall k: nat | k <= 7 ensures !OccursAt("<table>", "</td>", k) {
        assert k + 5 <= 7 ==> "<table>"[k..k + 5][1] == "<table>"[k + 1];
      }
    }
    assert !Contains("</table>", "</td>") by {
      forall k: nat | k <= 8 ensures !OccursAt("</table>", "</td>", k) {
        assert k + 5 <= 8 ==> "</table>"[k..k + 5][3] == "</table>"[k + 3];
      }
    }
    assert !Contains("</tr>", "</td>") by {
      assert "</tr>"[0..5][3] == 'r';
    }
  }

  const ExampleTags: seq<string> := ["<table>", "<tr>", "<td>", "</td>", "<td>", "</td>", "</tr>", "</table>"]

  /** The pieces for `ExampleTags` with `Name` and `42` matched to the two
      cells, in the order `get_pred_html` pushes them. */
  function ExamplePieces(): seq<string>
  {
    var t := ExampleTags;
    ExampleHead() + Chars("42") + [t[5]] + [t[6]] + [t[7]]
  }

  /** The pieces up to the opening tag of the second cell. */
  function ExampleHead(): seq<string>
  {
    var t := ExampleTags;
    [] + [t[0]] + [t[1]] + [t[2]] + Chars("Name") + [t[3]] + [t[4]]
  }

  /** One more token that does not close a cell is appended as it is. */
  lemma RenderPlainStep(tags: seq<string>, n: nat, m: map<nat, seq<nat>>, ocr: seq<OcrRecord>, pieces: seq<string>)
    requires n < |tags| && !IsCellClose(tags[n]) && Render(tags[..n], m, ocr) == Ok(pieces)
    ensures Render(tags[..n + 1], m, ocr) == Ok(pieces + [tags[n]])
    ensures CountCells(tags[..n + 1]) == CountCells(tags[..n])
  {
    assert tags[..n + 1][..n] == tags[..n];
  }

  /** One more cell-closing token is preceded by its cell's characters. */
  lemma RenderCellStep(tags: seq<string>, n: nat, m: map<nat, seq<nat>>, ocr: seq<OcrRecord>, pieces: seq<string>, content: string)
    requires n < |tags| && IsCellClose(tags[n]) && Render(tags[..n], m, ocr) == Ok(pieces)
    requires CellInjection(CountCells(tags[..n]), m, ocr) == Ok(content)
    ensures Render(tags[..n + 1], m, ocr) == Ok(pieces + Chars(content) + [tags[n]])
    ensures CountCells(tags[..n + 1]) == CountCells(tags[..n]) + 1
  {
    assert tags[..n + 1][..n] == tags[..n];
  }

  /** The two cells of the example each receive their single text. */
  lemma ExampleInjections(s0: real, s1: real)
    ensures CellInjection(0, map[0 := [0], 1 := [1]], [OcrRecord("Name", s0), OcrRecord("42", s1)]) == Ok("Name")
    ensures CellInjection(1, map[0 := [0], 1 := [1]], [OcrRecord("Name", s0), OcrRecord("42", s1)]) == Ok("42")
  {
    var ocr := [OcrRecord("Name", s0), OcrRecord("42", s1)];
    assert Records([0], ocr) == [ocr[0]];
    assert Records([1], ocr) == [ocr[1]];
  }

  /** The walk over eight tokens shaped like a one-row, two-cell table. */
  lemma TwoCellWalk(tags: seq<string>, m: map<nat, seq<nat>>, ocr: seq<OcrRecord>, c0: string, c1: string)
    requires |tags| == 8 && IsCellClose(tags[3]) && IsCellClose(tags[5])
    requires !IsCellClose(tags[0]) && !IsCellClose(tags[1]) && !IsCellClose(tags[2])
    requires !IsCellClose(tags[4]) && !IsCellClose(tags[6]) && !IsCellClose(tags[7])
    requires CellInjection(0, m, ocr) == Ok(c0) && CellInjection(1, m, ocr) == Ok(c1)
    ensures Render(tags, m, ocr) ==
      Ok([] + [tags[0]] + [tags[1]] + [tags[2]] + Chars(c0) + [tags[3]] + [tags[4]] + Chars(c1) + [tags[5]] + [tags[6]] + [tags[7]])
  {
    assert tags[..0] == [];
    RenderPlainStep(tags, 0, m, ocr, []);
    RenderPlainStep(tags, 1, m, ocr, [] + [tags[0]]);
    RenderPlainStep(tags, 2, m, ocr, [] + [tags[0]] + [tags[1]]);
    var p3 := [] + [tags[0]] + [tags[1]] + [tags[2]];
    RenderCellStep(tags, 3, m, ocr, p3, c0);
    var p4 := p3 + Chars(c0) + [tags[3]];
    RenderPlainStep(tags, 4, m, ocr, p4);
    var p5 := p4 + [tags[4]];
    RenderCellStep(tags, 5, m, ocr, p5, c1);
    var p6 := p5 + Chars(c1) + [tags[5]];
    RenderPlainStep(tags, 6, m, ocr, p6);
    RenderPlainStep(tags, 7, m, ocr, p6 + [tags[6]]);
    assert tags[..8] == tags;
  }

  lemma TwoCellRender(s0: real, s1: real)
    ensures Render(ExampleTags, map[0 := [0], 1 := [1]], [OcrRecord("Name", s0), OcrRecord("42", s1)]) == Ok(ExamplePieces())
  {
    ExampleTagKinds();
    ExampleInjections(s0, s1);
    TwoCellWalk(ExampleTags, map[0 := [0], 1 := [1]], [OcrRecord("Name", s0), OcrRecord("42", s1)], "Name", "42");
  }

  /** Joining after pushing one piece appends that piece. */
  lemma JoinPush(pieces: seq<string>, piece: string)
    ensures Join(pieces + [piece]) == Join(pieces) + piece
  {
    assert (pieces + [piece])[..|pieces|] == pieces;
  }

  lemma ExampleHeadJoin()
    ensures Join(ExampleHead()) == "<table>" + "<tr>" + "<td>" + "Name" + "</td>" + "<td>"
  {
    var t := ExampleTags;
    var p1 := [] + [t[0]];
    var p3 := p1 + [t[1]] + [t[2]];
    JoinPush([], t[0]);
    assert Join(p1) == "<table>";
    JoinPush(p1, t[1]);
    JoinPush(p1 + [t[1]], t[2]);
    JoinAppend(p3, Chars("Name"));
    JoinChars("Name");
    JoinPush(p3 + Chars("Name"), t[3]);
    JoinPush(p3 + Chars("Name") + [t[3]], t[4]);
  }

  lemma ExamplePiecesJoin()
    ensures Join(ExamplePieces()) ==
      "<table>" + "<tr>" + "<td>" + "Name" + "</td>" + "<td>" + "42" + "</td>" + "</tr>" + "</table>"
  {
    var t := ExampleTags;
    var p5 := ExampleHead();
    ExampleHeadJoin();
    JoinAppend(p5, Chars("42"));
    JoinChars("42");
    JoinPush(p5 + Chars("42"), t[5]);
    JoinPush(p5 + Chars("42") + [t[5]], t[6]);
    JoinPush(p5 + Chars("42") + [t[5]] + [t[6]], t[7]);
  }

  lemma ExampleMarkup()
    ensures "<table>" + "<tr>" + "<td>" + "Name" + "</td>" + "<td>" + "42" + "</td>" + "</tr>" + "</table>" ==
      "<table><tr><td>Name</td><td>42</td></tr></table>"
  {
    assert "<table>" + "<tr>" == "<table><tr>";
    assert "<table><tr>" + "<td>" == "<table><tr><td>";
    assert "<table><tr><td>" + "Name" == "<table><tr><td>Name";
    assert "<table><tr><td>Name" + "</td>" == "<table><tr><td>Name</td>";
    assert "<table><tr><td>Name</td>" + "<td>" == "<table><tr><td>Name</td><td>";
    assert "<table><tr><td>Name</td><td>" + "42" == "<table><tr><td>Name</td><td>42";
    assert "<table><tr><td>Name</td><td>42" + "</td>" == "<table><tr><td>Name</td><td>42</td>";
    assert "<table><tr><td>Name</td><td>42</td>" + "</tr>" == "<table><tr><td>Name</td><td>42</td></tr>";
  }

  /** Two one-text cells in a one-row table: each text lands verbatim in
      front of its cell's closing tag. */
  lemma TwoCellExample(s0: real, s1: real)
    ensures var r := Render(ExampleTags, map[0 := [0], 1 := [1]], [OcrRecord("Name", s0), OcrRecord("42", s1)]);
      r.Ok? && Join(r.value) == "<table><tr><td>Name</td><td>42</td></tr></table>"
  {
    TwoCellRender(s0, s1);
    ExamplePiecesJoin();
    ExampleMarkup();
  }

  /** The treatment of the text at position `i` of a cell with `count`
      texts: left alone when it is the only one, otherwise cleaned up; the
      empty result stands for a skipped fragment. */
  method CleanFragment(text: string, i: nat, count: nat) returns (content: string)
    ensures content == Fragment(text, i, count)
  {
    content := text;
    if count > 1 {
      if |content| == 0 {
        return [];
      }
      if content[0] == ' ' {
        content := content[1..];
      }
      if Contains(content, "<b>") {
        content := DropFirst(content, 3);
      }
      if Contains(content, "</b>") {
        content := DropLast(content, 4);
      }
      if |content| == 0 {
        return [];
      }
      if i != count - 1 && ' ' != content[|content| - 1] {
        content := content + " ";
      }
    }
  }

  /** The characters of a cell's content are those of its three parts. */
  lemma CellContentChars(cell: seq<nat>, ocrContents: seq<OcrRecord>, texts: seq<string>)
    requires |cell| > 0 && AllBelow(cell, |ocrContents|) && |texts| == |cell|
    requires forall k :: 0 <= k < |cell| ==> texts[k] == ocrContents[cell[k]].text
    ensures var bold := RecordHas(ocrContents[cell[0]], "<b>") && |cell| > 1;
      Chars(CellContent(Records(cell, ocrContents))) ==
        Chars(if bold then "<b>" else []) + Chars(Merged(texts, |cell|)) + Chars(if bold then "</b>" else [])
  {
    var records := Records(cell, ocrContents);
    var bold := RecordHas(ocrContents[cell[0]], "<b>") && |cell| > 1;
    var open: string := if bold then "<b>" else [];
    var close: string := if bold then "</b>" else [];
    assert Texts(records) == texts;
    assert CellContent(records) == open + Merged(texts, |cell|) + close;
    CharsAppend(open + Merged(texts, |cell|), close);
    CharsAppend(open, Merged(texts, |cell|));
  }

  /** The loop of `get_pred_html` over the texts of one cell: each text's
      fragment is pushed character by character onto `out`; an index past
      the recognition results raises `IndexError`. */
  method PushFragments(out: seq<string>, cell: seq<nat>, ocrContents: seq<OcrRecord>)
    returns (r: Result<seq<string>>)
    ensures r.Err? <==> !AllBelow(cell, |ocrContents|)
    ensures r.Err? ==> r.error == IndexError
    ensures r.Ok? ==> r.value == out + Chars(Merged(Texts(Records(cell, ocrContents)), |cell|))
  {
    var pushed := out;
    ghost var texts: seq<string> := [];
    for i := 0 to |cell|
      invariant |texts| == i
      invariant AllBelow(cell[..i], |ocrContents|)
      invariant texts == Texts(Records(cell[..i], ocrContents))
      invariant pushed == out + Chars(Merged(texts, |cell|))
    {
      if cell[i] >= |ocrContents| {
        return Err(IndexError);
      }
      var content := ocrContents[cell[i]].text;
      PushStep(out, pushed, texts, content, |cell|);
      TextsStep(cell, i, ocrContents);
      texts := texts + [content];
      content := CleanFragment(content, i, |cell|);
      pushed := pushed + Chars(content);
    }
    assert cell[..|cell|] == cell;
    return Ok(pushed);
  }

  /** The body of `get_pred_html` for a cell that has a match list `cell`:
      the optional `<b>`, each text fragment in turn, the optional `</b>`,
      all pushed character by character onto `endHtml`. */
  method InjectCell(endHtml: seq<string>, cell: seq<nat>, ocrContents: seq<OcrRecord>)
    returns (r: Result<seq<string>>)
    ensures r.Err? <==> |cell| == 0 || !AllBelow(cell, |ocrContents|)
    ensures r.Err? ==> r.error == IndexError
    ensures r.Ok? ==> r.value == endHtml + Chars(CellContent(Records(cell, ocrContents)))
  {
    var out := endHtml;
    if |cell| == 0 || cell[0] >= |ocrContents| {
      return Err(IndexError);
    }
    var bWith := false;
    if RecordHas(ocrContents[cell[0]], "<b>") && |cell| > 1 {
      bWith := true;
      out := out + Chars("<b>");
    }
    var pushed := PushFragments(out, cell, ocrContents);
    if pushed.Err? {
      return Err(IndexError);
    }
    out := pushed.value;
    CellAssembled(endHtml, cell, ocrContents, Texts(Records(cell, ocrContents)), bWith, out);
    if bWith {
      out := out + Chars("</b>");
    }
    return Ok(out);
  }

  /** `get_pred_html`: walk the tags with a running cell counter and an
      accumulator list; the returned string is the accumulator joined. */
  method GetPredHtml(predStructures: seq<string>, matchedIndex: map<nat, seq<nat>>, ocrContents: seq<OcrRecord>)
    returns (r: Result<PredHtml>)
    ensures r.Err? <==> Render(predStructures, matchedIndex, ocrContents).Err?
    ensures r.Err? ==> r.error == IndexError
    ensures r.Ok? ==> r.value.pieces == Render(predStructures, matchedIndex, ocrContents).value
    ensures r.Ok? ==> r.value.html == Join(r.value.pieces)
  {
    var endHtml: seq<string> := [];
    var tdIndex: nat := 0;
    for t := 0 to |predStructures|
      invariant Render(predStructures[..t], matchedIndex, ocrContents) == Ok(endHtml)
      invariant tdIndex == CountCells(predStructures[..t])
    {
      var tag := predStructures[t];
      ghost var prefix := predStructures[..t + 1];
      assert prefix[..t] == predStructures[..t] && prefix[t] == tag;
      ghost var injection := CellInjection(tdIndex, matchedIndex, ocrContents);
      if Contains(tag, "</td>") {
        if tdIndex in matchedIndex {
          var injected := InjectCell(endHtml, matchedIndex[tdIndex], ocrContents);
          if injected.Err? {
            assert Render(prefix, matchedIndex, ocrContents).Err?;
            RenderErrSticks(predStructures, t + 1, matchedIndex, ocrContents);
            return Err(IndexError);
          }
          endHtml := injected.value;
        } else {
          assert Chars(injection.value) == [];
          assert endHtml + Chars(injection.value) == endHtml;
        }
        endHtml := endHtml + [tag];
        tdIndex := tdIndex + 1;
      } else {
        endHtml := endHtml + [tag];
      }
      assert Render(prefix, matchedIndex, ocrContents) == Ok(endHtml);
    }
    assert predStructures[..|predStructures|] == predStructures;
    r := Ok(PredHtml(Join(endHtml), endHtml));
  }
}
