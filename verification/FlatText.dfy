/** Lines and the newline-joined text they stand for. */
module FlatText {
  const NL: char := '\n'

  function Before(ls: seq<string>): string {
    if ls == [] then "" else ls[0] + [NL] + Before(ls[1..])
  }

  function Following(ls: seq<string>): string {
    if ls == [] then "" else [NL] + ls[0] + Following(ls[1..])
  }

  /** `lines.join('\n')` */
  function Join(ls: seq<string>): string
    requires ls != []
  {
    ls[0] + Following(ls[1..])
  }

  /** `text.split('\n')` */
  function Split(text: string): (ls: seq<string>)
    ensures ls != []
  {
    if text == "" then [""]
    else
      var rest := Split(text[1..]);
      if text[0] == NL then [""] + rest else [[text[0]] + rest[0]] + rest[1..]
  }

  predicate Clean(line: string) { NL !in line }

  predicate AllClean(ls: seq<string>) { forall l <- ls :: Clean(l) }

  /** The text around one line. */
  lemma {:induction false} JoinAt(ls: seq<string>, row: nat)
    requires row < |ls|
    ensures Join(ls) == Before(ls[..row]) + ls[row] + Following(ls[row + 1..])
  {
    if row > 0 {
      JoinAt(ls[1..], row - 1);
      assert ls[1..][..row - 1] == ls[..row][1..] && ls[1..][row..] == ls[row + 1..];
      assert Following(ls[1..]) == [NL] + Join(ls[1..]);
    }
  }

  lemma {:induction false} BeforeAppend(ls: seq<string>, line: string)
    ensures Before(ls + [line]) == Before(ls) + line + [NL]
  {
    if ls == [] {
      assert ls + [line] == [line];
    } else {
      BeforeAppend(ls[1..], line);
      assert (ls + [line])[1..] == ls[1..] + [line];
    }
  }

  /** Text before row `row + 1`. */
  lemma BeforeNext(ls: seq<string>, row: nat)
    requires row < |ls|
    ensures Before(ls[..row + 1]) == Before(ls[..row]) + ls[row] + [NL]
  {
    assert ls[..row + 1] == ls[..row] + [ls[row]];
    BeforeAppend(ls[..row], ls[row]);
  }

  lemma FollowingHead(ls: seq<string>, row: nat)
    requires row < |ls|
    ensures Following(ls[row..]) == [NL] + ls[row] + Following(ls[row + 1..])
  {
  }

  lemma JoinLonger(c: char, ls: seq<string>)
    requires ls != []
    ensures Join([[c] + ls[0]] + ls[1..]) == [c] + Join(ls)
    ensures Join([""] + ls) == [NL] + Join(ls)
  {
  }

  lemma CleanLonger(c: char, ls: seq<string>)
    requires ls != [] && AllClean(ls)
    ensures c != NL ==> AllClean([[c] + ls[0]] + ls[1..])
    ensures AllClean([""] + ls)
  {
    assert Clean(ls[0]);
  }

  /** Joining what was split gives the text back, and the pieces hold no newline. */
  lemma {:induction false} JoinSplit(text: string)
    ensures Join(Split(text)) == text && AllClean(Split(text))
  {
    if text != "" {
      JoinSplit(text[1..]);
      JoinLonger(text[0], Split(text[1..]));
      CleanLonger(text[0], Split(text[1..]));
    }
  }

  /** Splitting what was joined gives the same lines back. */
  lemma {:induction false} SplitJoin(ls: seq<string>)
    requires ls != [] && AllClean(ls)
    ensures Split(Join(ls)) == ls
    decreases |Join(ls)|
  {
    var text := Join(ls);
    if ls[0] == "" {
      if |ls| > 1 {
        FollowingHead(ls, 1);
        assert text[1..] == Join(ls[1..]);
        SplitJoin(ls[1..]);
      }
    } else {
      var c, tail := ls[0][0], ls[0][1..];
      var shorter := [tail] + ls[1..];
      assert ls[0] == [c] + tail && shorter[1..] == ls[1..];
      assert text[0] == c && text[1..] == Join(shorter);
      assert Clean(ls[0]) && c in ls[0];
      CleanTail(ls);
      SplitJoin(shorter);
      assert Split(text) == [[c] + shorter[0]] + shorter[1..];
    }
  }

  lemma CleanTail(ls: seq<string>)
    requires ls != [] && ls[0] != "" && AllClean(ls)
    ensures AllClean([ls[0][1..]] + ls[1..])
  {
    assert Clean(ls[0]);
    assert forall c <- ls[0][1..] :: c in ls[0];
  }
}
