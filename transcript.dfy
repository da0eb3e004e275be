/**
 * The transcript text built from the provider's caption entries:
 * `'\n'.join([entry['text'] for entry in transcript])`.
 *
 * `Split` is Python's `str.split('\n')`, the inverse that the lemmas below
 * relate `Join` to.
 */
module Transcript {

  /** One caption entry; only its text is used (timing fields are not read). */
  datatype CaptionEntry = CaptionEntry(text: string)

  /** The comprehension `[entry['text'] for entry in transcript]`. */
  function Texts(entries: seq<CaptionEntry>): (ts: seq<string>)
    ensures |ts| == |entries|
    ensures forall k :: 0 <= k < |entries| ==> ts[k] == entries[k].text
  {
    if entries == [] then [] else [entries[0].text] + Texts(entries[1..])
  }

  /** `'\n'.join(ts)`: the pieces in order with one newline between neighbours. */
  function Join(ts: seq<string>): string
  {
    if |ts| == 0 then ""
    else if |ts| == 1 then ts[0]
    else ts[0] + "\n" + Join(ts[1..])
  }

  /** The text the provider's entries produce. */
  function TranscriptText(entries: seq<CaptionEntry>): string
  {
    Join(Texts(entries))
  }

  predicate NoNewline(t: string) {
    '\n' !in t
  }

  /** `s.split('\n')`: the pieces between newlines; always at least one piece. */
  function Split(s: string): (ps: seq<string>)
    ensures |ps| >= 1
  {
    if s == [] then [""]
    else if s[0] == '\n' then [""] + Split(s[1..])
    else
      var rest := Split(s[1..]);
      [[s[0]] + rest[0]] + rest[1..]
  }

  /** Joining onto a further list puts one newline after the last piece of the first. */
  lemma {:induction false} JoinAppend(ts: seq<string>, t: string)
    requires ts != []
    ensures Join(ts + [t]) == Join(ts) + "\n" + t
    decreases |ts|
  {
    if |ts| == 1 {
      assert ts + [t] == [ts[0], t];
    } else {
      assert (ts + [t])[1..] == ts[1..] + [t];
      JoinAppend(ts[1..], t);
    }
  }

  /** The empty list and the list of one empty string give the same text. */
  lemma JoinEmptyIsAmbiguous()
    ensures Join([]) == Join([""]) == ""
  {
  }

  /** A piece without newlines splits to itself. */
  lemma {:induction false} SplitNoNewline(t: string)
    requires NoNewline(t)
    ensures Split(t) == [t]
    decreases |t|
  {
    if t != [] {
      SplitNoNewline(t[1..]);
      assert [t[0]] + t[1..] == t;
    }
  }

  /** Splitting a newline-free piece followed by a newline peels off that piece. */
  lemma {:induction false} SplitSegment(t: string, rest: string)
    requires NoNewline(t)
    ensures Split(t + "\n" + rest) == [t] + Split(rest)
    decreases |t|
  {
    var s := t + "\n" + rest;
    if t == [] {
      assert s == "\n" + rest;
      assert s[1..] == rest;
    } else {
      assert s[0] == t[0] && s[1..] == t[1..] + "\n" + rest;
      SplitSegment(t[1..], rest);
      assert [t[0]] + t[1..] == t;
    }
  }

  /** Splitting the joined text recovers the pieces, when none contains a newline. */
  lemma {:induction false} SplitJoin(ts: seq<string>)
    requires ts != []
    requires forall k :: 0 <= k < |ts| ==> NoNewline(ts[k])
    ensures Split(Join(ts)) == ts
    decreases |ts|
  {
    if |ts| == 1 {
      SplitNoNewline(ts[0]);
    } else {
      SplitSegment(ts[0], Join(ts[1..]));
      SplitJoin(ts[1..]);
      assert [ts[0]] + ts[1..] == ts;
    }
  }

  /** Joining the pieces of any text gives the text back. */
  lemma {:induction false} JoinSplit(s: string)
    ensures Join(Split(s)) == s
    decreases |s|
  {
    if s != [] {
      var rest := Split(s[1..]);
      JoinSplit(s[1..]);
      if s[0] == '\n' {
        assert [""] + rest == Split(s);
        assert ([""] + rest)[1..] == rest;
        assert Join([""] + rest) == "" + "\n" + Join(rest);
        assert s == "\n" + s[1..];
      } else {
        var ps := [[s[0]] + rest[0]] + rest[1..];
        assert ps == Split(s);
        if |rest| == 1 {
          assert Join(rest) == rest[0];
          assert s == [s[0]] + s[1..];
        } else {
          assert ps[1..] == rest[1..];
          assert Join(rest) == rest[0] + "\n" + Join(rest[1..]);
          assert s == [s[0]] + s[1..];
        }
      }
    }
  }

  /** The two-entry case: `Hello` and `world` become `Hello\nworld`. */
  lemma HelloWorldExample()
    ensures TranscriptText([CaptionEntry("Hello"), CaptionEntry("world")]) == "Hello\nworld"
  {
    var ts := Texts([CaptionEntry("Hello"), CaptionEntry("world")]);
    assert ts == ["Hello", "world"];
    assert ts[1..] == ["world"];
  }
}
