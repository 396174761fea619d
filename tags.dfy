/**
 * The task form's tag field: the typed text is split on commas and each piece
 * trimmed (`tagsInput.split(',').map(tag => tag.trim())`, empty text giving no
 * tags), and the edit form shows a task's tags joined with ", ".
 */
module Tags {

  /** The characters `String.prototype.trim` removes: ECMAScript white space and line terminators. */
  predicate IsSpace(c: char) {
    var n := c as int;
    n == 0x09 || n == 0x0A || n == 0x0B || n == 0x0C || n == 0x0D || n == 0x20
    || n == 0xA0 || n == 0x1680 || (0x2000 <= n <= 0x200A) || n == 0x2028 || n == 0x2029
    || n == 0x202F || n == 0x205F || n == 0x3000 || n == 0xFEFF
  }

  /** No white space at either end. */
  predicate IsTrimmed(s: string) {
    s == [] || (!IsSpace(s[0]) && !IsSpace(s[|s| - 1]))
  }

  function TrimStart(s: string): (r: string)
    ensures r == [] || !IsSpace(r[0])
    ensures |r| <= |s| && r == s[|s| - |r|..]
    ensures forall i :: 0 <= i < |s| - |r| ==> IsSpace(s[i])
  {
    if s != [] && IsSpace(s[0]) then TrimStart(s[1..]) else s
  }

  function TrimEnd(s: string): (r: string)
    ensures r == [] || !IsSpace(r[|r| - 1])
    ensures |r| <= |s| && r == s[..|r|]
    ensures forall i :: |r| <= i < |s| ==> IsSpace(s[i])
  {
    if s != [] && IsSpace(s[|s| - 1]) then TrimEnd(s[..|s| - 1]) else s
  }

  /** `String.prototype.trim`: the input without its leading and trailing white space. */
  function Trim(s: string): (r: string)
    ensures IsTrimmed(r)
    ensures |r| <= |s|
  {
    TrimEnd(TrimStart(s))
  }

  /** Trimming removes white space at the two ends and nothing else. */
  lemma TrimRemovesOnlySpace(s: string)
    ensures exists i, j :: (0 <= i <= j <= |s| && Trim(s) == s[i..j]
                            && (forall k :: 0 <= k < i ==> IsSpace(s[k]))
                            && (forall k :: j <= k < |s| ==> IsSpace(s[k])))
  {
    var t := TrimStart(s);
    var r := TrimEnd(t);
    var i := |s| - |t|;
    assert r == s[i..i + |r|];
  }

  /** `s.split(sep)` for a one-character separator: always at least one piece. */
  function Split(s: string, sep: char): (r: seq<string>)
    ensures |r| >= 1
    ensures forall k :: 0 <= k < |r| ==> sep !in r[k]
  {
    if s == [] then [[]]
    else
      var rest := Split(s[1..], sep);
      if s[0] == sep then [[]] + rest
      else [[s[0]] + rest[0]] + rest[1..]
  }

  /** `pieces.join(sep)`. */
  function Join(pieces: seq<string>, sep: string): string {
    if pieces == [] then []
    else if |pieces| == 1 then pieces[0]
    else pieces[0] + sep + Join(pieces[1..], sep)
  }

  function Count(s: string, c: char): nat {
    if s == [] then 0 else (if s[0] == c then 1 else 0) + Count(s[1..], c)
  }

  /** Splitting finds one more piece than there are separators, and joining the pieces gives the text back. */
  lemma {:induction false} SplitJoin(s: string, sep: char)
    ensures |Split(s, sep)| == Count(s, sep) + 1
    ensures Join(Split(s, sep), [sep]) == s
  {
    if s != [] {
      SplitJoin(s[1..], sep);
      var rest := Split(s[1..], sep);
      if s[0] == sep {
        assert Join([[]] + rest, [sep]) == [] + [sep] + Join(rest, [sep]);
      } else {
        if |rest| == 1 {
          assert Join([[s[0]] + rest[0]] + rest[1..], [sep]) == [s[0]] + rest[0];
        } else {
          assert rest == [rest[0]] + rest[1..];
          assert Join(rest, [sep]) == rest[0] + [sep] + Join(rest[1..], [sep]);
          var r := [[s[0]] + rest[0]] + rest[1..];
          assert r[1..] == rest[1..];
          assert Join(r, [sep]) == [s[0]] + rest[0] + [sep] + Join(rest[1..], [sep]);
        }
        assert s == [s[0]] + s[1..];
      }
    }
  }

  /** The tags typed into the form: none for empty text, otherwise one trimmed tag per comma-separated piece. */
  function ParseTags(input: string): (tags: seq<string>)
    ensures input == [] ==> tags == []
    ensures input != [] ==> |tags| == Count(input, ',') + 1
    ensures forall k :: 0 <= k < |tags| ==> ',' !in tags[k] && IsTrimmed(tags[k])
  {
    if input == [] then []
    else
      var pieces := Split(input, ',');
      SplitJoin(input, ',');
      seq(|pieces|, k requires 0 <= k < |pieces| => TrimSubsequence(pieces[k]); Trim(pieces[k]))
  }

  lemma ParseTagsAt(input: string, k: int)
    requires input != [] && 0 <= k < |Split(input, ',')|
    ensures |ParseTags(input)| == |Split(input, ',')|
    ensures ParseTags(input)[k] == Trim(Split(input, ',')[k])
  {
  }

  /** Trimming only removes characters, so a comma-free piece stays comma-free. */
  lemma TrimSubsequence(s: string)
    ensures forall c :: c in Trim(s) ==> c in s
  {
    TrimRemovesOnlySpace(s);
  }

  /**
   * The text the edit form shows for a task's tags.  It is empty exactly for
   * no tags and for the single empty tag; one tag is shown as itself.
   */
  function JoinTags(tags: seq<string>): (s: string)
    ensures s == [] <==> tags == [] || tags == [[]]
    ensures |tags| == 1 ==> s == tags[0]
  {
    Join(tags, ", ")
  }

  /** Every tag but the first, preceded by the space that ", " leaves after each comma. */
  function Spaced(tags: seq<string>): seq<string> {
    seq(|tags|, k requires 0 <= k < |tags| => " " + tags[k])
  }

  lemma {:induction false} SplitAfterPiece(p: string, t: string)
    requires ',' !in p
    ensures Split(p + [','] + t, ',') == [p] + Split(t, ',')
    decreases |p|
  {
    if p == [] {
      assert p + [','] + t == [','] + t;
    } else {
      SplitAfterPiece(p[1..], t);
      var whole := p + [','] + t;
      assert whole[0] == p[0] && whole[0] != ',';
      assert whole[1..] == p[1..] + [','] + t;
      var rest := Split(whole[1..], ',');
      assert rest[0] == p[1..] && rest[1..] == Split(t, ',');
      assert [p[0]] + p[1..] == p;
    }
  }

  lemma {:induction false} SplitSpaceFirst(t: string)
    ensures Split(" " + t, ',') == [" " + Split(t, ',')[0]] + Split(t, ',')[1..]
  {
    assert (" " + t)[1..] == t;
  }

  lemma {:induction false} SplitPiece(p: string)
    requires ',' !in p
    ensures Split(p, ',') == [p]
    decreases |p|
  {
    if p != [] {
      SplitPiece(p[1..]);
      assert [p[0]] + p[1..] == p;
    }
  }

  /** Splitting ", "-joined comma-free tags on commas gives the first tag and the others with one leading space. */
  lemma {:induction false} SplitJoinedTags(tags: seq<string>)
    requires |tags| >= 1
    requires forall k :: 0 <= k < |tags| ==> ',' !in tags[k]
    ensures Split(JoinTags(tags), ',') == [tags[0]] + Spaced(tags[1..])
    decreases |tags|
  {
    if |tags| == 1 {
      SplitPiece(tags[0]);
    } else {
      var rest := tags[1..];
      SplitJoinedTags(rest);
      assert JoinTags(tags) == tags[0] + [','] + (" " + JoinTags(rest));
      SplitAfterPiece(tags[0], " " + JoinTags(rest));
      SplitSpaceFirst(JoinTags(rest));
      assert rest[1..] == tags[2..];
      assert Spaced(rest) == [" " + rest[0]] + Spaced(tags[2..]);
    }
  }

  lemma TrimTrimmed(t: string)
    requires IsTrimmed(t)
    ensures Trim(t) == t && Trim(" " + t) == t
  {
    assert (" " + t)[1..] == t;
  }

  /**
   * Opening a task in the edit form and saving it without touching the tag
   * field gives back the same tags, provided every tag is comma-free and
   * trimmed and the list is not the single empty tag (which the form shows
   * as empty text, read back as no tags).
   */
  lemma {:induction false} ParseJoinRoundTrip(tags: seq<string>)
    requires forall k :: 0 <= k < |tags| ==> ',' !in tags[k] && IsTrimmed(tags[k])
    requires tags != [[]]
    ensures ParseTags(JoinTags(tags)) == tags
  {
    if tags != [] {
      SplitJoinedTags(tags);
      TrimPieces(JoinTags(tags), tags);
    }
  }

  /** Trimming the pieces of the joined text gives the tags back. */
  lemma TrimPieces(text: string, tags: seq<string>)
    requires text != [] && |tags| >= 1
    requires forall k :: 0 <= k < |tags| ==> IsTrimmed(tags[k])
    requires Split(text, ',') == [tags[0]] + Spaced(tags[1..])
    ensures ParseTags(text) == tags
  {
    forall k | 0 <= k < |tags|
      ensures |ParseTags(text)| == |tags| && ParseTags(text)[k] == tags[k]
    {
      TrimPiece(text, tags, k);
    }
  }

  lemma TrimPiece(text: string, tags: seq<string>, k: int)
    requires text != [] && 0 <= k < |tags| && IsTrimmed(tags[k])
    requires Split(text, ',') == [tags[0]] + Spaced(tags[1..])
    ensures |ParseTags(text)| == |tags| && ParseTags(text)[k] == tags[k]
  {
    var pieces := Split(text, ',');
    assert |pieces| == |tags|;
    var piece := pieces[k];
    if k > 0 {
      var rest := tags[1..];
      assert piece == Spaced(rest)[k - 1];
      assert rest[k - 1] == tags[k];
      assert piece == " " + tags[k];
    } else {
      assert piece == tags[0];
    }
    ParseTagsAt(text, k);
    assert ParseTags(text)[k] == Trim(piece);
    TrimTrimmed(tags[k]);
  }

  /** The single empty tag does not survive the round trip. */
  lemma EmptyTagIsLost()
    ensures ParseTags(JoinTags([[]])) == []
  {
  }
}
