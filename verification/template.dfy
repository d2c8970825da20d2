/** Python f-strings as bin/mk-node-defs.py uses them for its generated
    files: literal pieces of text with a substituted value between each
    neighbouring pair, and a reader that recovers the values from a
    rendered text. */
module Template {
  import opened Text
  import opened Results

  /** The text of an f-string whose literal pieces are `pieces` and whose
      substituted values are `values`, in order: the first piece, the first
      value, the second piece, and so on, ending with the last piece. */
  function Fill(pieces: seq<string>, values: seq<string>): string
    requires |pieces| == |values| + 1
    decreases |values|
  {
    if |values| == 0 then pieces[0]
    else pieces[0] + values[0] + Fill(pieces[1..], values[1..])
  }

  /** Each value can be told from the piece after it: that piece starts
      with a character the value does not hold. */
  predicate Delimited(pieces: seq<string>, values: seq<string>)
    requires |pieces| == |values| + 1
  {
    forall k :: 0 < k < |pieces| ==> |pieces[k]| > 0 && pieces[k][0] !in values[k - 1]
  }

  /** The rest of `s` behind `key`, if `s` starts with `key`. */
  function After(s: string, key: string): (r: Option<string>)
    ensures r.Some? <==> key <= s
    ensures r.Some? ==> s == key + r.value
  {
    if key <= s then Some(s[|key|..]) else None
  }

  lemma AfterOf(key: string, v: string)
    ensures After(key + v, key) == Some(v)
  {
    assert (key + v)[|key|..] == v;
  }

  /** `s` cut in front of its first `c`; all of `s` when it has none. */
  function Until(s: string, c: char): (r: (string, string))
    ensures r.0 + r.1 == s
    ensures c !in r.0
    ensures r.1 == [] || r.1[0] == c
  {
    if c in s then
      var i := IndexOf(s, c);
      assert s[..i] + s[i..] == s;
      (s[..i], s[i..])
    else (s, [])
  }

  /** A text without `c` followed by a text starting with `c` is cut
      between the two. */
  lemma UntilOf(v: string, c: char, m: string)
    requires c !in v && |m| > 0 && m[0] == c
    ensures Until(v + m, c) == (v, m)
  {
    var s := v + m;
    assert s[|v|] == c;
    assert s[..|v|] == v;
    IndexOfFirst(s, c, |v|);
    assert s[|v|..] == m;
  }

  /** The values of a text rendered from `pieces`: each piece must be
      where the template puts it, and each value runs up to the first
      character of the piece after it. */
  function Read(pieces: seq<string>, text: string): (r: Option<seq<string>>)
    requires |pieces| > 0
    decreases |pieces|
  {
    var rest :- After(text, pieces[0]);
    if |pieces| == 1 then
      if rest == [] then Some([]) else None
    else if |pieces[1]| == 0 then None
    else
      var (v, more) := Until(rest, pieces[1][0]);
      var vs :- Read(pieces[1..], more);
      Some([v] + vs)
  }

  /** A rendered text reads back as its values. */
  lemma {:induction false} ReadFill(pieces: seq<string>, values: seq<string>)
    requires |pieces| == |values| + 1 && Delimited(pieces, values)
    ensures Read(pieces, Fill(pieces, values)) == Some(values)
    decreases |values|
  {
    var t := Fill(pieces, values);
    if |values| == 0 {
      AfterOf(pieces[0], []);
      assert pieces[0] + [] == t;
    } else {
      var tail := Fill(pieces[1..], values[1..]);
      assert After(t, pieces[0]) == Some(values[0] + tail) by {
        assert t == pieces[0] + (values[0] + tail);
        AfterOf(pieces[0], values[0] + tail);
      }
      assert Until(values[0] + tail, pieces[1][0]) == (values[0], tail) by {
        assert |pieces[1]| > 0 && pieces[1][0] !in values[0];
        FillStart(pieces[1..], values[1..]);
        UntilOf(values[0], pieces[1][0], tail);
      }
      assert Read(pieces[1..], tail) == Some(values[1..]) by {
        DelimitedTail(pieces, values);
        ReadFill(pieces[1..], values[1..]);
      }
      ReadStep(pieces, t, values[0] + tail, values[0], tail, values[1..]);
      SeqCons(values);
    }
  }

  /** One step of `Read`: the first piece, the first value up to the
      second piece, and the values of the rest. */
  lemma ReadStep(pieces: seq<string>, text: string, rest: string, v: string, more: string, vs: seq<string>)
    requires |pieces| > 1 && |pieces[1]| > 0
    requires After(text, pieces[0]) == Some(rest)
    requires Until(rest, pieces[1][0]) == (v, more)
    requires Read(pieces[1..], more) == Some(vs)
    ensures Read(pieces, text) == Some([v] + vs)
  {
  }

  lemma SeqCons(values: seq<string>)
    requires |values| > 0
    ensures [values[0]] + values[1..] == values
  {
  }

  /** A text that reads back as some values is the rendering of them, and
      they are delimited: `Read` accepts nothing `Fill` does not write. */
  lemma {:induction false} FillRead(pieces: seq<string>, text: string)
    requires |pieces| > 0 && Read(pieces, text).Some?
    ensures |Read(pieces, text).value| + 1 == |pieces|
    ensures Delimited(pieces, Read(pieces, text).value)
    ensures Fill(pieces, Read(pieces, text).value) == text
    decreases |pieces|
  {
    var rest := After(text, pieces[0]).value;
    assert text == pieces[0] + rest;
    if |pieces| == 1 {
      assert rest == [];
      assert Read(pieces, text).value == [];
    } else {
      var (v, more) := Until(rest, pieces[1][0]);
      assert Read(pieces[1..], more).Some?;
      FillRead(pieces[1..], more);
      var vs := Read(pieces[1..], more).value;
      var values := [v] + vs;
      assert Read(pieces, text).value == values;
      assert values[1..] == vs;
      FillStart(pieces[1..], vs);
      DelimitedCons(pieces, v, vs);
      assert rest == v + more;
    }
  }

  /** A value delimited by the second piece, in front of values delimited
      by the later pieces, keeps all of them delimited. */
  lemma DelimitedCons(pieces: seq<string>, v: string, vs: seq<string>)
    requires |pieces| == |vs| + 2 && Delimited(pieces[1..], vs)
    requires |pieces[1]| > 0 && pieces[1][0] !in v
    ensures Delimited(pieces, [v] + vs)
  {
    var values := [v] + vs;
    forall k | 0 < k < |pieces|
      ensures |pieces[k]| > 0 && pieces[k][0] !in values[k - 1]
    {
      if k > 1 {
        assert pieces[k] == pieces[1..][k - 1] && values[k - 1] == vs[k - 2];
      }
    }
  }

  /** Dropping the first piece and value keeps the rest delimited. */
  lemma DelimitedTail(pieces: seq<string>, values: seq<string>)
    requires |pieces| == |values| + 1 && |values| > 0 && Delimited(pieces, values)
    ensures Delimited(pieces[1..], values[1..])
  {
    forall k | 0 < k < |pieces| - 1
      ensures |pieces[1..][k]| > 0 && pieces[1..][k][0] !in values[1..][k - 1]
    {
      assert pieces[1..][k] == pieces[k + 1] && values[1..][k - 1] == values[k];
    }
  }

  lemma PrefixOfAppend(a: string, b: string)
    ensures a <= a + b
  {
    assert (a + b)[..|a|] == a;
  }

  /** A rendered text starts with the first piece. */
  lemma FillStart(pieces: seq<string>, values: seq<string>)
    requires |pieces| == |values| + 1
    ensures pieces[0] <= Fill(pieces, values)
  {
    if |values| > 0 {
      PrefixOfAppend(pieces[0], values[0] + Fill(pieces[1..], values[1..]));
    }
  }

  /** `Read` recovers exactly the delimited values a text renders. */
  lemma ReadIff(pieces: seq<string>, values: seq<string>, text: string)
    requires |pieces| == |values| + 1
    ensures Read(pieces, text) == Some(values) <==> Delimited(pieces, values) && text == Fill(pieces, values)
  {
    if Read(pieces, text) == Some(values) {
      FillRead(pieces, text);
    }
    if Delimited(pieces, values) && text == Fill(pieces, values) {
      ReadFill(pieces, values);
    }
  }

  /** Each value occurs in the rendered text verbatim, between the pieces
      around it. */
  lemma {:induction false} FillContains(pieces: seq<string>, values: seq<string>, k: nat)
    requires |pieces| == |values| + 1 && k < |values|
    ensures Contains(Fill(pieces, values), pieces[k] + values[k] + pieces[k + 1])
    decreases k
  {
    var tail := Fill(pieces[1..], values[1..]);
    if k == 0 {
      FillStart(pieces[1..], values[1..]);
      assert pieces[0] + values[0] + pieces[1] <= pieces[0] + values[0] + tail;
      ContainsWitness(Fill(pieces, values), pieces[0] + values[0] + pieces[1], 0);
    } else {
      FillContains(pieces[1..], values[1..], k - 1);
      assert pieces[1..][k - 1] == pieces[k] && pieces[1..][k] == pieces[k + 1];
      assert values[1..][k - 1] == values[k];
      ContainsParts(pieces[0] + values[0], tail, []);
      assert pieces[0] + values[0] + tail + [] == Fill(pieces, values);
      ContainsTrans(Fill(pieces, values), tail, pieces[k] + values[k] + pieces[k + 1]);
    }
  }

  /** Rendering the first `j` values with their pieces gives a prefix of
      the whole rendering. */
  lemma {:induction false} FillPrefix(pieces: seq<string>, values: seq<string>, j: nat)
    requires |pieces| == |values| + 1 && j <= |values|
    ensures Fill(pieces[..j + 1], values[..j]) <= Fill(pieces, values)
    decreases j
  {
    if j == 0 {
      FillStart(pieces, values);
    } else {
      FillPrefix(pieces[1..], values[1..], j - 1);
      assert pieces[..j + 1][1..] == pieces[1..][..j];
      assert values[..j][1..] == values[1..][..j - 1];
      var head := pieces[0] + values[0];
      var part := Fill(pieces[1..][..j], values[1..][..j - 1]);
      var whole := Fill(pieces[1..], values[1..]);
      assert Fill(pieces[..j + 1], values[..j]) == head + part;
      assert whole[..|part|] == part;
      assert (head + whole)[..|head + part|] == head + part;
    }
  }

  /** Any run of consecutive values, rendered with the pieces around them,
      occurs verbatim in the whole rendering. */
  lemma {:induction false} FillContainsRun(pieces: seq<string>, values: seq<string>, i: nat, j: nat)
    requires |pieces| == |values| + 1 && i <= j <= |values|
    ensures Contains(Fill(pieces, values), Fill(pieces[i..j + 1], values[i..j]))
    decreases i
  {
    var whole := Fill(pieces, values);
    var run := Fill(pieces[i..j + 1], values[i..j]);
    if i == 0 {
      FillPrefix(pieces, values, j);
      assert pieces[0..j + 1] == pieces[..j + 1] && values[0..j] == values[..j];
      ContainsWitness(whole, run, 0);
    } else {
      var tail := Fill(pieces[1..], values[1..]);
      assert Contains(tail, run) by {
        FillContainsRun(pieces[1..], values[1..], i - 1, j - 1);
        SliceOfTail(pieces, i - 1, j);
        SliceOfTail(values, i - 1, j - 1);
      }
      assert Contains(whole, tail) by {
        ContainsParts(pieces[0] + values[0], tail, []);
        assert pieces[0] + values[0] + tail + [] == whole;
      }
      ContainsTrans(whole, tail, run);
    }
  }

  /** Slicing the tail of a sequence is slicing the sequence one further on. */
  lemma SliceOfTail<T>(s: seq<T>, i: nat, j: nat)
    requires i <= j < |s|
    ensures s[1..][i..j] == s[i + 1..j + 1]
  {
  }

  /** A template with one value. */
  lemma FillOne(a: string, b: string, x: string)
    ensures Fill([a, b], [x]) == a + x + b
  {
    assert [a, b][1..] == [b] && [x][1..] == [];
  }

  /** A template with two values. */
  lemma FillTwo(a: string, b: string, c: string, x: string, y: string)
    ensures Fill([a, b, c], [x, y]) == a + x + (b + y + c)
  {
    assert [a, b, c][1..] == [b, c] && [x, y][1..] == [y];
    FillOne(b, c, y);
  }

  /** `Contains(s, key + v)` from a run `pre + key + v + post` of `s`. */
  lemma ContainsKeyed(s: string, run: string, pre: string, key: string, v: string, post: string)
    requires Contains(s, run) && run == pre + key + v + post
    ensures Contains(s, key + v)
  {
    ContainsParts(pre, key + v, post);
    assert pre + (key + v) + post == run;
    ContainsTrans(s, run, key + v);
  }

  /** A value occurs verbatim between a key that ends the piece before it
      and the character that starts the piece after it. */
  lemma FillContainsField(pieces: seq<string>, values: seq<string>, k: nat, pre: string, key: string, close: char)
    requires |pieces| == |values| + 1 && k < |values| && pieces[k] == pre + key
    requires |pieces[k + 1]| > 0 && pieces[k + 1][0] == close
    ensures Contains(Fill(pieces, values), key + values[k] + [close])
  {
    var v, post := values[k], pieces[k + 1][1..];
    FillContainsRun(pieces, values, k, k + 1);
    assert pieces[k..k + 2] == [pieces[k], pieces[k + 1]] && values[k..k + 1] == [v];
    FillOne(pieces[k], pieces[k + 1], v);
    assert pieces[k + 1] == [close] + post;
    var run := pieces[k] + v + pieces[k + 1];
    assert run == pre + key + (v + [close]) + post;
    ContainsKeyed(Fill(pieces, values), run, pre, key, v + [close], post);
    assert key + (v + [close]) == key + v + [close];
  }

  /** Two neighbouring values occur verbatim, with the piece between them,
      behind a key that ends the piece before the first. */
  lemma FillContainsPair(pieces: seq<string>, values: seq<string>, k: nat, pre: string, key: string)
    requires |pieces| == |values| + 1 && k + 1 < |values| && pieces[k] == pre + key
    ensures Contains(Fill(pieces, values), key + values[k] + pieces[k + 1] + values[k + 1])
  {
    var a, b, c, x, y := pieces[k], pieces[k + 1], pieces[k + 2], values[k], values[k + 1];
    var whole := Fill(pieces, values);
    var run := a + x + (b + y + c);
    FillContainsTwo(pieces, values, k);
    var t := key + x + b + y;
    assert run == pre + t + c by {
      PairRunParts(pre, key, x, b, y, c);
    }
    ContainsParts(pre, t, c);
    ContainsTrans(whole, run, t);
  }

  /** Three neighbouring pieces with the two values between them occur in
      the filled text. */
  lemma FillContainsTwo(pieces: seq<string>, values: seq<string>, k: nat)
    requires |pieces| == |values| + 1 && k + 1 < |values|
    ensures Contains(Fill(pieces, values),
      pieces[k] + values[k] + (pieces[k + 1] + values[k + 1] + pieces[k + 2]))
  {
    var a, b, c, x, y := pieces[k], pieces[k + 1], pieces[k + 2], values[k], values[k + 1];
    FillContainsRun(pieces, values, k, k + 2);
    assert pieces[k..k + 3] == [a, b, c] && values[k..k + 2] == [x, y];
    FillTwo(a, b, c, x, y);
  }

  lemma PairRunParts(pre: string, key: string, x: string, b: string, y: string, c: string)
    ensures (pre + key) + x + (b + y + c) == pre + (key + x + b + y) + c
  {
  }
}
