/**
 * Turning the OCR text of one image into paragraph blocks: the text is
 * split on newlines, each line trimmed and blank lines dropped; each kept
 * line becomes a label/value block when it has a short label before its
 * first colon, and a plain block otherwise.
 */
module Lines {
  import opened JsString
  import opened Blocks

  /** A label at least this long (in UTF-16 units) makes the line plain. */
  const LabelThreshold: nat := 50

  /** `pieces.map((l) => l.trim())`. */
  function TrimAll(pieces: seq<string>): (r: seq<string>)
    ensures |r| == |pieces|
    ensures forall k :: 0 <= k < |pieces| ==> r[k] == Trim(pieces[k])
  {
    seq(|pieces|, k requires 0 <= k < |pieces| => Trim(pieces[k]))
  }

  /** `xs.filter(Boolean)` on strings: keeps the non-empty ones, in order. */
  function KeepNonEmpty(xs: seq<string>): (r: seq<string>)
    ensures |r| <= |xs|
    ensures forall k :: 0 <= k < |r| ==> r[k] != "" && r[k] in xs
    ensures "" !in xs ==> r == xs
  {
    if |xs| == 0 then []
    else if xs[0] == "" then KeepNonEmpty(xs[1..])
    else [xs[0]] + KeepNonEmpty(xs[1..])
  }

  /** The lines of an OCR text that become paragraphs. */
  function PrepareLines(text: string): (lines: seq<string>)
    ensures |lines| <= |Split(text, '\n')|
    ensures forall k :: 0 <= k < |lines| ==> lines[k] != ""
  {
    KeepNonEmpty(TrimAll(Split(text, '\n')))
  }

  /** `a` is `b` with some elements removed and the rest in their original order. */
  ghost predicate IsSubsequence<T>(a: seq<T>, b: seq<T>)
    decreases |b|
  {
    |a| == 0 || (|b| > 0 && ((a[0] == b[0] && IsSubsequence(a[1..], b[1..])) || IsSubsequence(a, b[1..])))
  }

  /** Filtering keeps every non-empty element once, in order, and drops every empty one. */
  lemma KeepNonEmptyExact(xs: seq<string>)
    ensures IsSubsequence(KeepNonEmpty(xs), xs)
    ensures multiset(KeepNonEmpty(xs)) == multiset(xs)["" := 0]
    ensures forall k :: 0 <= k < |KeepNonEmpty(xs)| ==> KeepNonEmpty(xs)[k] != "" && KeepNonEmpty(xs)[k] in xs
  {
    KeepNonEmptyOrder(xs);
    KeepNonEmptyCounts(xs);
  }

  lemma {:induction false} KeepNonEmptyOrder(xs: seq<string>)
    ensures IsSubsequence(KeepNonEmpty(xs), xs)
  {
    if |xs| > 0 {
      KeepNonEmptyOrder(xs[1..]);
      if xs[0] != "" {
        assert KeepNonEmpty(xs)[1..] == KeepNonEmpty(xs[1..]);
      }
    }
  }

  lemma {:induction false} KeepNonEmptyCounts(xs: seq<string>)
    ensures multiset(KeepNonEmpty(xs)) == multiset(xs)["" := 0]
  {
    if |xs| > 0 {
      KeepNonEmptyCounts(xs[1..]);
      assert xs == [xs[0]] + xs[1..];
      assert multiset(xs) == multiset{xs[0]} + multiset(xs[1..]);
      if xs[0] != "" {
        var r := KeepNonEmpty(xs);
        assert r == [xs[0]] + KeepNonEmpty(xs[1..]);
        assert multiset(r) == multiset{xs[0]} + multiset(KeepNonEmpty(xs[1..]));
      }
    }
  }

  /** Every prepared line is non-empty, holds no newline and is its own trim. */
  lemma PreparedLinesClean(text: string)
    ensures forall k :: 0 <= k < |PrepareLines(text)| ==>
      PrepareLines(text)[k] != "" && '\n' !in PrepareLines(text)[k] && Trim(PrepareLines(text)[k]) == PrepareLines(text)[k]
  {
    var pieces := Split(text, '\n');
    var trimmed := TrimAll(pieces);
    KeepNonEmptyExact(trimmed);
    var lines := KeepNonEmpty(trimmed);
    forall k | 0 <= k < |lines| ensures lines[k] != "" && '\n' !in lines[k] && Trim(lines[k]) == lines[k] {
      var line := lines[k];
      assert line in trimmed;
      var j :| 0 <= j < |trimmed| && trimmed[j] == line;
      TrimmedPieceClean(pieces[j]);
    }
  }

  lemma TrimmedPieceClean(piece: string)
    requires '\n' !in piece
    ensures '\n' !in Trim(piece) && Trim(Trim(piece)) == Trim(piece)
  {
    TrimIdempotent(piece);
    if '\n' in Trim(piece) {
      TrimKeepsCharacters(piece, '\n');
    }
  }

  /** The prepared lines are the non-empty trimmed pieces of the text, each once, in the text's order. */
  lemma PreparedLinesOrder(text: string)
    ensures IsSubsequence(PrepareLines(text), TrimAll(Split(text, '\n')))
    ensures multiset(PrepareLines(text)) == multiset(TrimAll(Split(text, '\n')))["" := 0]
  {
    KeepNonEmptyExact(TrimAll(Split(text, '\n')));
  }

  lemma {:induction false} SplitOfWhitespace(s: string, sep: char)
    requires AllWhitespace(s)
    ensures forall k :: 0 <= k < |Split(s, sep)| ==> AllWhitespace(Split(s, sep)[k])
  {
    if |s| > 0 {
      SplitOfWhitespace(s[1..], sep);
      var tail := Split(s[1..], sep);
      if s[0] != sep {
        var p := [s[0]] + tail[0];
        assert forall i :: 1 <= i < |p| ==> p[i] == tail[0][i - 1];
      }
    }
  }

  lemma SplitOfNonWhitespace(s: string, sep: char) returns (j: nat)
    requires IsWhitespace(sep) && !AllWhitespace(s)
    ensures j < |Split(s, sep)| && !AllWhitespace(Split(s, sep)[j])
  {
    var p :| 0 <= p < |s| && !IsWhitespace(s[p]);
    var i;
    j, i := PieceOf(s, sep, p);
  }

  /** A character of `s` other than the separator lands, as character `i`, in piece `j` of the split. */
  lemma {:induction false} PieceOf(s: string, sep: char, p: nat) returns (j: nat, i: nat)
    requires p < |s| && s[p] != sep
    ensures j < |Split(s, sep)| && i < |Split(s, sep)[j]| && Split(s, sep)[j][i] == s[p]
  {
    var tail := Split(s[1..], sep);
    if p == 0 {
      j, i := 0, 0;
      assert Split(s, sep)[0][0] == s[0];
    } else {
      var t, u := PieceOf(s[1..], sep, p - 1);
      if s[0] == sep {
        j, i := t + 1, u;
        assert Split(s, sep) == [""] + tail;
      } else {
        var r := [[s[0]] + tail[0]] + tail[1..];
        assert Split(s, sep) == r;
        if t == 0 {
          j, i := 0, u + 1;
          assert r[0][u + 1] == tail[0][u];
        } else {
          j, i := t, u;
          assert r[t] == tail[t];
        }
      }
    }
  }

  lemma {:induction false} KeepNonEmptyEmptyIff(xs: seq<string>)
    ensures KeepNonEmpty(xs) == [] <==> forall k :: 0 <= k < |xs| ==> xs[k] == ""
  {
    if |xs| > 0 {
      KeepNonEmptyEmptyIff(xs[1..]);
      assert forall k :: 1 <= k < |xs| ==> xs[k] == xs[1..][k - 1];
    }
  }

  /** A text yields no lines exactly when it is blank (only whitespace and newlines). */
  lemma BlankTextIff(text: string)
    ensures PrepareLines(text) == [] <==> AllWhitespace(text)
  {
    var pieces := Split(text, '\n');
    KeepNonEmptyEmptyIff(TrimAll(pieces));
    if AllWhitespace(text) {
      SplitOfWhitespace(text, '\n');
      forall k | 0 <= k < |pieces| ensures TrimAll(pieces)[k] == "" { TrimEmptyIff(pieces[k]); }
    } else {
      var j := SplitOfNonWhitespace(text, '\n');
      TrimEmptyIff(pieces[j]);
      assert TrimAll(pieces)[j] != "";
    }
  }

  /** `line.includes(":") && line.split(":")[0].length < 50`. */
  predicate IsLabelValue(line: string) {
    ':' in line && Utf16Length(Split(line, ':')[0]) < LabelThreshold
  }

  /** The paragraph for one prepared line. */
  function ClassifyLine(line: string): (b: Block)
    ensures b.LabelValue? || b.Plain?
    ensures b.Plain? ==> b == Plain(line)
    ensures b.LabelValue? ==> ':' in line && |b.key| >= 1 && b.key[|b.key| - 1] == ':' && |b.value| >= 1 && b.value[0] == ' '
  {
    if IsLabelValue(line) then
      var pieces := Split(line, ':');
      LabelValue(Trim(pieces[0]) + ":", " " + Trim(Join(pieces[1..], ':')))
    else
      Plain(line)
  }

  /**
   * A line is label/value exactly when it has a colon and fewer than 50
   * UTF-16 units before the first one; the key run is the trimmed label
   * and a colon, the value run a space and the trimmed rest of the line
   * with its later colons intact. Any other line is kept whole.
   */
  lemma ClassifyLineSpec(line: string)
    ensures ':' !in line ==> ClassifyLine(line) == Plain(line)
    ensures ':' in line ==>
      var i := FirstIndex(line, ':');
      (Utf16Length(line[..i]) < LabelThreshold ==>
         ClassifyLine(line) == LabelValue(Trim(line[..i]) + ":", " " + Trim(line[i + 1..])))
      && (Utf16Length(line[..i]) >= LabelThreshold ==> ClassifyLine(line) == Plain(line))
  {
    if ':' in line {
      SplitAtFirst(line, ':');
      var i := FirstIndex(line, ':');
      var pieces := Split(line, ':');
      assert pieces[0] == line[..i];
      assert Join(pieces[1..], ':') == line[i + 1..];
      if Utf16Length(line[..i]) < LabelThreshold {
        assert IsLabelValue(line);
      } else {
        assert !IsLabelValue(line);
      }
    }
  }

  /** The threshold is exclusive: a label of 50 or more characters gives a plain line. */
  lemma LongLabelIsPlain(line: string)
    requires ':' in line && FirstIndex(line, ':') >= LabelThreshold
    ensures ClassifyLine(line) == Plain(line)
  {
    ClassifyLineSpec(line);
    assert |line[..FirstIndex(line, ':')]| == FirstIndex(line, ':');
  }

  /** A label of at most 49 characters of the Basic Multilingual Plane gives a label/value line. */
  lemma ShortLabelIsLabelValue(line: string)
    requires ':' in line && FirstIndex(line, ':') < LabelThreshold
    requires forall k :: 0 <= k < FirstIndex(line, ':') ==> line[k] as int < 0x1_0000
    ensures ClassifyLine(line).LabelValue?
  {
    var i := FirstIndex(line, ':');
    var key := line[..i];
    assert forall k :: 0 <= k < |key| ==> key[k] as int < 0x1_0000;
    assert Utf16Length(key) == |key|;
    SplitAtFirst(line, ':');
    assert IsLabelValue(line);
  }

  /**
   * For a line `key:value` whose key has no colon: with a key under 50
   * UTF-16 units the key run is the trimmed key and a colon and the value
   * run a space and the trimmed value; otherwise the line stays whole.
   */
  lemma ClassifyKeyValue(key: string, value: string)
    requires ':' !in key
    ensures Utf16Length(key) < LabelThreshold ==>
      ClassifyLine(key + [':'] + value) == LabelValue(Trim(key) + ":", " " + Trim(value))
    ensures Utf16Length(key) >= LabelThreshold ==>
      ClassifyLine(key + [':'] + value) == Plain(key + [':'] + value)
  {
    var line := key + [':'] + value;
    assert line[|key|] == ':';
    assert line[..|key|] == key;
    FirstIndexUnique(line, ':', |key|);
    assert line[|key| + 1..] == value;
    ClassifyLineSpec(line);
    if Utf16Length(key) < LabelThreshold {
      assert ClassifyLine(line) == LabelValue(Trim(key) + ":", " " + Trim(value));
    } else {
      assert ClassifyLine(line) == Plain(line);
    }
  }

  /** The inner loop over the prepared lines: one paragraph per line, in order. */
  function LineBlocks(lines: seq<string>): (blocks: seq<Block>)
    ensures |blocks| == |lines|
  {
    seq(|lines|, k requires 0 <= k < |lines| => ClassifyLine(lines[k]))
  }

  /** A line never becomes a header, a spacer or an error paragraph. */
  lemma LineBlocksAreContent(lines: seq<string>)
    ensures forall k :: 0 <= k < |lines| ==>
      (LineBlocks(lines)[k].LabelValue? || LineBlocks(lines)[k] == Plain(lines[k]))
  {
  }
}
