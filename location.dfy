/**
 * Extraction of a workspace id from the location URL that the service
 * answers a create request with (vcworkspace.py,
 * get_workspace_guid_from_location): the last '/'-separated segment,
 * `loc.split("/")[-1]`.
 */
module Location {

  const Slash: char := '/'

  /** The last '/'-separated segment of `loc`. */
  function GuidFromLocation(loc: string): (r: string)
    ensures Slash !in r
    ensures |r| <= |loc| && loc[|loc| - |r|..] == r
    ensures Slash !in loc ==> r == loc
    ensures Slash in loc ==> |r| < |loc| && loc[|loc| - |r| - 1] == Slash
  {
    if loc == [] then []
    else if loc[|loc| - 1] == Slash then []
    else GuidFromLocation(loc[..|loc| - 1]) + [loc[|loc| - 1]]
  }

  /** Python's `s.split(sep)` for a one-character separator: the pieces between separators, in order. */
  function Split(s: string, sep: char): (pieces: seq<string>)
    ensures |pieces| >= 1
  {
    if s == [] then [[]]
    else
      var init := Split(s[..|s| - 1], sep);
      var c := s[|s| - 1];
      if c == sep then init + [[]]
      else init[..|init| - 1] + [init[|init| - 1] + [c]]
  }

  /** Python's `sep.join(pieces)`. */
  function Join(pieces: seq<string>, sep: char): string
    requires |pieces| >= 1
  {
    if |pieces| == 1 then pieces[0]
    else Join(pieces[..|pieces| - 1], sep) + [sep] + pieces[|pieces| - 1]
  }

  /** No piece of a split contains the separator. */
  lemma {:induction false} SplitPiecesAvoidSeparator(s: string, sep: char)
    ensures forall i :: 0 <= i < |Split(s, sep)| ==> sep !in Split(s, sep)[i]
  {
    if s != [] {
      SplitPiecesAvoidSeparator(s[..|s| - 1], sep);
    }
  }

  /** Joining the pieces of a split gives back the original string. */
  lemma {:induction false} JoinSplit(s: string, sep: char)
    ensures Join(Split(s, sep), sep) == s
  {
    if s != [] {
      var t := s[..|s| - 1];
      var c := s[|s| - 1];
      var init := Split(t, sep);
      JoinSplit(t, sep);
      if c == sep {
        assert (init + [[]])[..|init|] == init;
      } else {
        var n := |init|;
        var pieces := init[..n - 1] + [init[n - 1] + [c]];
        if n > 1 {
          assert pieces[..n - 1] == init[..n - 1];
          assert init[..n - 1][..n - 2] == init[..n - 2];
          assert Join(init, sep) == Join(init[..n - 1], sep) + [sep] + init[n - 1];
        }
      }
      assert t + [c] == s;
    }
  }

  /** The extracted id is `loc.split("/")[-1]`. */
  lemma {:induction false} GuidIsLastPiece(loc: string)
    ensures var pieces := Split(loc, Slash); GuidFromLocation(loc) == pieces[|pieces| - 1]
  {
    if loc != [] {
      GuidIsLastPiece(loc[..|loc| - 1]);
    }
  }
}
