/** The nameserver list of bin/mk-node-defs.py: the comma-separated
    `--nameservers` option is cut at its commas, each entry is stripped of
    surrounding whitespace, and the entries are joined again with `", "`
    for the `addresses: [...]` line of the netplan configuration. */
module Nameservers {
  import opened Text

  /** Each entry of `es` with surrounding whitespace removed. */
  function StripEach(es: seq<string>): (r: seq<string>)
    ensures |r| == |es|
  {
    seq(|es|, k requires 0 <= k < |es| => Strip(es[k]))
  }

  /** The entries of a nameserver option: one per comma-separated piece,
      stripped. Empty pieces are kept. */
  function Entries(s: string): seq<string> {
    StripEach(Split(s, ','))
  }

  /** `', '.join([s.strip() for s in nameservers.split(',')])`. */
  function Normalize(s: string): string {
    Join(Entries(s), ", ")
  }

  /** Entries as `Normalize` leaves them: stripped and free of commas. */
  ghost predicate CleanEntries(es: seq<string>) {
    forall k :: 0 <= k < |es| ==> IsStripped(es[k]) && ',' !in es[k]
  }

  /** One entry per comma-separated piece, each stripped and without a
      comma. */
  lemma EntriesClean(s: string)
    ensures |Entries(s)| == |Split(s, ',')| > 0
    ensures CleanEntries(Entries(s))
  {
    var es := Entries(s);
    forall k | 0 <= k < |es|
      ensures IsStripped(es[k]) && ',' !in es[k]
    {
      StripIsStripped(Split(s, ',')[k]);
      StripKeeps(Split(s, ',')[k], ',');
    }
  }

  /** Stripping never adds a character. */
  lemma StripKeeps(s: string, c: char)
    requires c !in s
    ensures c !in Strip(s)
  {
    var l := TrimLeft(s);
    TrimLeftSpec(s);
    TrimRightSpec(l);
    assert forall i :: 0 <= i < |Strip(s)| ==> Strip(s)[i] == s[|s| - |l| + i];
  }

  /** The entries after the first, each with the space `", "` puts in
      front of it. */
  function Pad(es: seq<string>): (r: seq<string>)
    requires |es| > 0
    ensures |r| == |es|
  {
    [es[0]] + seq(|es| - 1, k requires 0 <= k < |es| - 1 => " " + es[k + 1])
  }

  /** Putting `p` in front of the first piece puts it in front of the
      join. */
  lemma JoinPrefixFirst(es: seq<string>, sep: string, p: string)
    requires |es| > 0
    ensures Join([p + es[0]] + es[1..], sep) == p + Join(es, sep)
  {
    var fs := [p + es[0]] + es[1..];
    assert fs[1..] == es[1..];
    if |es| > 1 {
      assert Join(fs, sep) == (p + es[0]) + sep + Join(es[1..], sep);
    }
  }

  /** Joining with `", "` is joining the padded entries with `","`. */
  lemma {:induction false} JoinPadded(es: seq<string>)
    requires |es| > 0
    ensures Join(es, ", ") == Join(Pad(es), ",")
    decreases |es|
  {
    if |es| > 1 {
      var rest := es[1..];
      JoinPadded(rest);
      var p := Pad(es);
      var q := Pad(rest);
      assert p[1..] == [" " + q[0]] + q[1..];
      JoinPrefixFirst(q, ",", " ");
      assert Join(p, ",") == es[0] + "," + (" " + Join(q, ","));
    }
  }

  lemma StripSpaced(e: string)
    requires IsStripped(e)
    ensures Strip(" " + e) == e
  {
    StripOfPadded(" ", e, "");
    assert " " + e + "" == " " + e;
  }

  /** Clean entries are their own stripped forms. */
  lemma StripEachClean(es: seq<string>)
    requires CleanEntries(es)
    ensures StripEach(es) == es
  {
    forall k | 0 <= k < |es|
      ensures StripEach(es)[k] == es[k]
    {
      StripStripped(es[k]);
    }
  }

  /** The padded entries have no commas either. */
  lemma PadClean(es: seq<string>)
    requires |es| > 0 && CleanEntries(es)
    ensures forall k :: 0 <= k < |es| ==> ',' !in Pad(es)[k]
  {
    var p := Pad(es);
    forall k | 0 <= k < |es|
      ensures ',' !in p[k]
    {
      if k > 0 {
        assert p[k] == " " + es[k];
      }
    }
  }

  /** Stripping the padded entries removes the padding. */
  lemma StripEachPad(es: seq<string>)
    requires |es| > 0 && CleanEntries(es)
    ensures StripEach(Pad(es)) == es
  {
    var p := Pad(es);
    forall k | 0 <= k < |es|
      ensures Strip(p[k]) == es[k]
    {
      if k == 0 {
        StripStripped(es[0]);
      } else {
        assert p[k] == " " + es[k];
        StripSpaced(es[k]);
      }
    }
  }

  /** Cutting the output at its commas gives the padded entries. */
  lemma SplitNormalize(s: string)
    ensures |Entries(s)| > 0 && CleanEntries(Entries(s))
    ensures Split(Normalize(s), ',') == Pad(Entries(s))
  {
    var es := Entries(s);
    EntriesClean(s);
    JoinPadded(es);
    PadClean(es);
    SplitJoin(Pad(es), ',');
  }

  /** The output cut at its commas and stripped gives back the entries:
      `Normalize` loses nothing and invents nothing. */
  lemma EntriesOfNormalize(s: string)
    ensures Entries(Normalize(s)) == Entries(s)
  {
    SplitNormalize(s);
    StripEachPad(Entries(s));
  }

  /** Normalizing twice is normalizing once. */
  lemma NormalizeIdempotent(s: string)
    ensures Normalize(Normalize(s)) == Normalize(s)
  {
    EntriesOfNormalize(s);
  }

  /** Clean entries separated by bare commas come out separated by `", "`. */
  lemma NormalizeJoined(es: seq<string>)
    requires |es| > 0 && CleanEntries(es)
    ensures Normalize(Join(es, ",")) == Join(es, ", ")
  {
    SplitJoin(es, ',');
    assert Split(Join(es, ","), ',') == es;
    StripEachClean(es);
  }

  /** The default option `8.8.8.8,8.8.4.4` is written `8.8.8.8, 8.8.4.4`. */
  lemma DefaultExample()
    ensures Normalize("8.8.8.8,8.8.4.4") == "8.8.8.8, 8.8.4.4"
  {
    var es := ["8.8.8.8", "8.8.4.4"];
    assert Join(es, ",") == "8.8.8.8,8.8.4.4";
    assert Join(es, ", ") == "8.8.8.8, 8.8.4.4";
    NormalizeJoined(es);
  }
}
