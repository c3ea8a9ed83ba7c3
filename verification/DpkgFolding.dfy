/** A field of several lines, as each reader takes it (core/doctor/deb822.go:79-118,
    core/apt/held.go:94-124). */
module DpkgFolding {
  import opened Wrappers
  import Seqs
  import opened DpkgStatus
  import opened DpkgStatusLines

  // ---- what white space is trimmed ----

  predicate AllSpace(s: string) {
    forall i :: 0 <= i < |s| ==> IsSpace(s[i])
  }

  lemma {:induction false} TrimLeftTakesOff(left: string, s: string, whole: string)
    requires AllSpace(left) && whole == left + s && (s != "" ==> !IsSpace(s[0]))
    ensures TrimLeft(whole) == s
  {
    if left == "" {
      assert whole == s;
    } else {
      assert whole[0] == left[0] && whole[1..] == left[1..] + s;
      TrimLeftTakesOff(left[1..], s, whole[1..]);
    }
  }

  lemma {:induction false} TrimRightTakesOff(s: string, right: string, whole: string)
    requires AllSpace(right) && whole == s + right && (s != "" ==> !IsSpace(s[|s| - 1]))
    ensures TrimRight(whole) == s
    decreases |right|
  {
    if right == "" {
      assert whole == s;
    } else {
      var n := |right| - 1;
      assert whole[|whole| - 1] == right[n] && whole[..|whole| - 1] == s + right[..n];
      TrimRightTakesOff(s, right[..n], whole[..|whole| - 1]);
    }
  }

  /** Trimming takes off all white space at both ends and nothing else. */
  lemma {:induction false} TrimTakesOff(left: string, s: string, right: string)
    requires AllSpace(left) && AllSpace(right)
    requires s != "" ==> !IsSpace(s[0]) && !IsSpace(s[|s| - 1])
    ensures Trim(left + s + right) == s
  {
    if s == "" {
      assert left + s + right == (left + right) + "";
      TrimLeftTakesOff(left + right, "", left + s + right);
    } else {
      assert left + s + right == left + (s + right);
      TrimLeftTakesOff(left, s + right, left + s + right);
      TrimRightTakesOff(s, right, s + right);
    }
  }

  lemma {:induction false} NotAllSpace(s: string, i: nat)
    requires i < |s| && !IsSpace(s[i])
    ensures Trim(s) != ""
    decreases |s|
  {
    if IsSpace(s[0]) {
      NotAllSpace(s[1..], i - 1);
    } else {
      TrimRightKeepsHead(s);
    }
  }

  /** A line counts as blank exactly when it is white space alone. */
  lemma {:induction false} BlankIsAllSpace(s: string)
    ensures Trim(s) == "" <==> AllSpace(s)
  {
    if AllSpace(s) {
      assert s == s + "" + "";
      TrimTakesOff(s, "", "");
    } else {
      var i :| 0 <= i < |s| && !IsSpace(s[i]);
      NotAllSpace(s, i);
    }
  }

  // ---- folded text ----

  /** Debian's way to write one further line of a field. */
  function FoldedLine(text: string): string {
    " " + if text == "" then "." else text
  }

  /** Text that a further line can carry. */
  predicate Foldable(text: string) {
    text == "" || (text != "." && text[0] != '\t' && !AllSpace(text))
  }

  /** A further line comes back from the doctor's reader exactly when it is empty, or is not a
      lone dot, does not start with a tab and is not white space alone. */
  lemma {:induction false} FoldedLineExactly(text: string)
    ensures Trim(FoldedLine(text)) != "" && Continuation(FoldedLine(text)) == "\n" + text <==> Foldable(text)
  {
    var line := FoldedLine(text);
    BlankIsAllSpace(line);
    assert line[1..] == if text == "" then "." else text;
    if text == "" {
      assert !IsSpace(line[1]);
    } else {
      assert AllSpace(line) <==> AllSpace(text) by {
        assert forall i :: 0 <= i < |text| ==> text[i] == line[i + 1];
        assert forall i :: 1 <= i < |line| ==> line[i] == text[i - 1];
      }
      FoldedTextIs(text);
    }
  }

  lemma {:induction false} FoldedTextIs(text: string)
    requires text != ""
    ensures Continuation(" " + text) == "\n" + text <==> text != "." && text[0] != '\t'
  {
    assert (" " + text)[1..] == text;
    var cont := DropFirst(text, '\t');
    assert Continuation(" " + text) == "\n" + if cont == "." then "" else cont;
    assert |"\n" + text| == |text| + 1;
    if Continuation(" " + text) == "\n" + text {
      assert |"\n" + if cont == "." then "" else cont| == 1 + |text|;
    }
  }

  /** The lines of a field and what they say together. */
  function FieldLines(key: string, first: string, more: seq<string>): seq<string> {
    if more == [] then [FieldLine(key, first)]
    else FieldLines(key, first, more[..|more| - 1]) + [FoldedLine(more[|more| - 1])]
  }

  function Value(first: string, more: seq<string>): string {
    if more == [] then first else Value(first, more[..|more| - 1]) + "\n" + more[|more| - 1]
  }

  /** In the middle of a field each further line is added to it by the doctor's reader and
      passed over by the resolver's. */
  lemma {:induction false} InsideTheField(key: string, first: string, more: seq<string>)
    requires PlainKey(key) && forall t :: t in more ==> Foldable(t)
    ensures DoctorRun(START, FieldLines(key, first, more)) == Folding(Some(map[]), key, Value(first, more), [])
    ensures ResolverRun(EMPTY, FieldLines(key, first, more)) == Collecting(map[key := first], true, [])
    decreases |more|
  {
    if more == [] {
      DoctorField(START, key, first);
      ResolverField(EMPTY, key, first);
      DoctorPush(START, [], FieldLine(key, first), [FieldLine(key, first)]);
      ResolverPush(EMPTY, [], FieldLine(key, first), [FieldLine(key, first)]);
    } else {
      var before, last := more[..|more| - 1], more[|more| - 1];
      InsideTheField(key, first, before);
      FoldedLineExactly(last);
      Seqs.Assoc(Value(first, before), "\n", last);
      DoctorPush(START, FieldLines(key, first, before), FoldedLine(last), FieldLines(key, first, more));
      ResolverPush(EMPTY, FieldLines(key, first, before), FoldedLine(last), FieldLines(key, first, more));
    }
  }

  /** A field of several lines is read back whole by the doctor's reader, and by the resolver's
      up to its first line. */
  lemma {:induction false} FieldReadsBack(key: string, first: string, more: seq<string>)
    requires PlainKey(key) && forall t :: t in more ==> Foldable(t)
    ensures DoctorFlush(DoctorRun(START, FieldLines(key, first, more))).out == [map[key := Value(first, more)]]
    ensures ResolverFlush(ResolverRun(EMPTY, FieldLines(key, first, more))).out == [map[key := first]]
  {
    InsideTheField(key, first, more);
  }
}
