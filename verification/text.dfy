/** Splitting text into lines on a separator character, as `str::split`
    does with a one-character pattern, and joining lines back. */
module Text {

  /** The pieces between separators, in order. Like `str::split`, the
      empty string gives one empty piece and a trailing separator gives a
      trailing empty piece. */
  function Split(s: string, sep: char): (r: seq<string>)
    ensures |r| >= 1
    ensures forall i :: 0 <= i < |r| ==> sep !in r[i]
  {
    if |s| == 0 then [""]
    else
      var rest := Split(s[1..], sep);
      if s[0] == sep then [""] + rest
      else [[s[0]] + rest[0]] + rest[1..]
  }

  /** The pieces with one separator between each two. */
  function Join(parts: seq<string>, sep: char): string
    requires |parts| >= 1
  {
    if |parts| == 1 then parts[0] else parts[0] + [sep] + Join(parts[1..], sep)
  }

  /** Joining the pieces gives back the text. */
  lemma {:induction false} JoinSplit(s: string, sep: char)
    ensures Join(Split(s, sep), sep) == s
  {
    if |s| > 0 {
      var rest := Split(s[1..], sep);
      JoinSplit(s[1..], sep);
      if s[0] == sep {
        assert Split(s, sep)[1..] == rest;
        assert s == [sep] + s[1..];
      } else {
        var r := Split(s, sep);
        if |rest| == 1 {
          assert r == [[s[0]] + rest[0]];
          assert s == [s[0]] + s[1..];
        } else {
          assert r[1..] == rest[1..];
          assert Join(rest, sep) == rest[0] + [sep] + Join(rest[1..], sep);
          assert s == [s[0]] + s[1..];
        }
      }
    }
  }

  /** Splitting joined pieces that hold no separator gives back the
      pieces. */
  lemma {:induction false} SplitJoin(parts: seq<string>, sep: char)
    requires |parts| >= 1
    requires forall i :: 0 <= i < |parts| ==> sep !in parts[i]
    ensures Split(Join(parts, sep), sep) == parts
    decreases |parts|, |parts[0]|
  {
    var p := parts[0];
    if |p| == 0 {
      if |parts| > 1 {
        var tail := Join(parts[1..], sep);
        assert Join(parts, sep) == [sep] + tail;
        assert ([sep] + tail)[1..] == tail;
        SplitJoin(parts[1..], sep);
        assert parts == [""] + parts[1..];
      }
    } else {
      var shorter := [p[1..]] + parts[1..];
      assert shorter[1..] == parts[1..];
      SplitJoin(shorter, sep);
      var s := Join(parts, sep);
      if |parts| > 1 {
        assert s == [p[0]] + Join(shorter, sep);
      } else {
        assert s == [p[0]] + p[1..];
      }
      assert s[1..] == Join(shorter, sep);
      assert p == [p[0]] + p[1..];
    }
  }

  /** The non-empty pieces, in order (`.filter(|s| !s.is_empty())`). */
  function NonEmpty(parts: seq<string>): (r: seq<string>)
    ensures |r| <= |parts|
    ensures forall i :: 0 <= i < |r| ==> |r[i]| > 0
    ensures forall i :: 0 <= i < |parts| && |parts[i]| > 0 ==> parts[i] in r
    ensures forall i :: 0 <= i < |r| ==> r[i] in parts
  {
    if |parts| == 0 then []
    else if |parts[0]| == 0 then NonEmpty(parts[1..])
    else [parts[0]] + NonEmpty(parts[1..])
  }

  /** Dropping empty pieces keeps a list that has none. */
  lemma {:induction false} NonEmptyKeepsFull(parts: seq<string>)
    requires forall i :: 0 <= i < |parts| ==> |parts[i]| > 0
    ensures NonEmpty(parts) == parts
  {
    if |parts| > 0 {
      NonEmptyKeepsFull(parts[1..]);
    }
  }
}
