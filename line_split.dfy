/**
 * The reference meaning of line assembly: a text splits into the segments
 * that a newline terminates (the completed lines) and the text after the
 * last newline (the pending fragment).  `Join` is the inverse of the split.
 */
module LineSplit {
  import opened Text

  const Newline: char := '\n'

  /** The newline-terminated segments of `s`, in order, without their terminators. */
  function Lines(s: string): (r: seq<string>)
    decreases |s|
  {
    var i := IndexOf(s, Newline);
    if i == |s| then [] else [s[..i]] + Lines(s[i + 1..])
  }

  /** The text after the last newline of `s` (all of `s` if it has none). */
  function Pending(s: string): (r: string)
    decreases |s|
  {
    var i := IndexOf(s, Newline);
    if i == |s| then s else Pending(s[i + 1..])
  }

  /** Each line followed by a newline, then the pending fragment. */
  function Join(lines: seq<string>, pending: string): (r: string)
  {
    if lines == [] then pending
    else lines[0] + [Newline] + Join(lines[1..], pending)
  }

  ghost predicate NewlineFree(lines: seq<string>)
  {
    forall k :: 0 <= k < |lines| ==> Newline !in lines[k]
  }

  /** No line and no pending fragment holds a newline. */
  lemma {:induction false} SplitNewlineFree(s: string)
    ensures NewlineFree(Lines(s))
    ensures Newline !in Pending(s)
    decreases |s|
  {
    var i := IndexOf(s, Newline);
    IndexOfFirst(s, Newline);
    if i == |s| {
      IndexOfAbsent(s, Newline);
    } else {
      SplitNewlineFree(s[i + 1..]);
      var ls := Lines(s);
      assert ls == [s[..i]] + Lines(s[i + 1..]);
      forall k | 0 <= k < |ls| ensures Newline !in ls[k] {
        if k == 0 {
          assert forall j :: 0 <= j < i ==> s[..i][j] == s[j];
        } else {
          assert ls[k] == Lines(s[i + 1..])[k - 1];
        }
      }
    }
  }

  /** A text without a newline is all pending. */
  lemma {:induction false} NoNewlineSplit(s: string)
    requires Newline !in s
    ensures Lines(s) == [] && Pending(s) == s
  {
    IndexOfAbsent(s, Newline);
  }

  /** Splitting loses nothing: the lines and the fragment rebuild the text. */
  lemma {:induction false} JoinSplit(s: string)
    ensures Join(Lines(s), Pending(s)) == s
    decreases |s|
  {
    var i := IndexOf(s, Newline);
    if i < |s| {
      IndexOfFirst(s, Newline);
      var tail := s[i + 1..];
      JoinSplit(tail);
      var ls := Lines(s);
      assert ls[0] == s[..i] && ls[1..] == Lines(tail);
      assert s == s[..i] + [Newline] + tail;
    }
  }

  /** Splitting a joined text gives back its parts, so the split is the unique such decomposition. */
  lemma {:induction false} SplitJoin(lines: seq<string>, pending: string)
    requires NewlineFree(lines) && Newline !in pending
    ensures Lines(Join(lines, pending)) == lines
    ensures Pending(Join(lines, pending)) == pending
  {
    if lines == [] {
      IndexOfAbsent(pending, Newline);
    } else {
      var rest := Join(lines[1..], pending);
      var s := Join(lines, pending);
      assert s == lines[0] + [Newline] + rest;
      IndexOfAfter(lines[0], Newline, rest);
      assert s[..|lines[0]|] == lines[0];
      assert s[|lines[0]| + 1..] == rest;
      SplitJoin(lines[1..], pending);
      assert lines == [lines[0]] + lines[1..];
    }
  }

  lemma {:induction false} JoinExtendPending(lines: seq<string>, pending: string, more: string)
    ensures Join(lines, pending) + more == Join(lines, pending + more)
  {
    if lines != [] {
      JoinExtendPending(lines[1..], pending, more);
    }
  }

  lemma {:induction false} JoinConcat(a: seq<string>, b: seq<string>, pending: string)
    ensures Join(a, Join(b, pending)) == Join(a + b, pending)
  {
    if a != [] {
      JoinConcat(a[1..], b, pending);
      assert (a + b)[0] == a[0];
      assert (a + b)[1..] == a[1..] + b;
    } else {
      assert a + b == b;
    }
  }

  lemma NewlineFreeConcat(a: seq<string>, b: seq<string>)
    requires NewlineFree(a) && NewlineFree(b)
    ensures NewlineFree(a + b)
  {
    forall k | 0 <= k < |a + b| ensures Newline !in (a + b)[k] {
      if k < |a| {
        assert (a + b)[k] == a[k];
      } else {
        assert (a + b)[k] == b[k - |a|];
      }
    }
  }

  /**
   * One more character: a newline completes the pending fragment as a line
   * and empties it; any other character is appended to the fragment.
   */
  lemma {:induction false} SplitSnoc(s: string, c: char)
    ensures c == Newline ==> Lines(s + [c]) == Lines(s) + [Pending(s)] && Pending(s + [c]) == []
    ensures c != Newline ==> Lines(s + [c]) == Lines(s) && Pending(s + [c]) == Pending(s) + [c]
  {
    var ls, p := Lines(s), Pending(s);
    JoinSplit(s);
    SplitNewlineFree(s);
    JoinExtendPending(ls, p, [c]);
    if c == Newline {
      JoinConcat(ls, [p], []);
      assert Join([p], []) == p + [Newline];
      NewlineFreeConcat(ls, [p]);
      SplitJoin(ls + [p], []);
    } else {
      SplitJoin(ls, p + [c]);
    }
  }

  /**
   * The split of `a + b` is the split of `a` followed by the split of its
   * pending fragment extended by `b`: where a text is cut into chunks does
   * not matter as long as the fragment is carried over.
   */
  lemma {:induction false} SplitAppend(a: string, b: string)
    ensures Lines(a + b) == Lines(a) + Lines(Pending(a) + b)
    ensures Pending(a + b) == Pending(Pending(a) + b)
  {
    var p := Pending(a) + b;
    JoinSplit(a);
    JoinSplit(p);
    SplitNewlineFree(a);
    SplitNewlineFree(p);
    JoinExtendPending(Lines(a), Pending(a), b);
    JoinConcat(Lines(a), Lines(p), Pending(p));
    NewlineFreeConcat(Lines(a), Lines(p));
    SplitJoin(Lines(a) + Lines(p), Pending(p));
  }

  lemma {:induction false} NewlinesOfJoin(lines: seq<string>, pending: string)
    requires NewlineFree(lines) && Newline !in pending
    ensures multiset(Join(lines, pending))[Newline] == |lines|
  {
    if lines != [] {
      NewlinesOfJoin(lines[1..], pending);
      var rest := Join(lines[1..], pending);
      assert multiset(lines[0] + [Newline] + rest) == multiset(lines[0]) + multiset([Newline]) + multiset(rest);
    }
  }

  /** There are exactly as many lines as newlines. */
  lemma {:induction false} LineCount(s: string)
    ensures |Lines(s)| == multiset(s)[Newline]
  {
    JoinSplit(s);
    SplitNewlineFree(s);
    NewlinesOfJoin(Lines(s), Pending(s));
  }
}
