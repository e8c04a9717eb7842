/** Stream processing (2017 day 9): a stream of nested `{...}` groups
    separated by commas, with `<...>` garbage in which `!` cancels the next
    character.  One left-to-right pass scores every group by its depth and
    counts the characters of garbage. */
module Stream {
  import opened Text

  const OpenGroup: char := '{'
  const CloseGroup: char := '}'
  const OpenJunk: char := '<'
  const CloseJunk: char := '>'
  const Cancel: char := '!'

  /** The five variables of `calculate_score_and_garbage`. */
  datatype Scan = Scan(score: int, depth: int, inJunk: bool, ignore: bool, garbage: nat)

  const Start := Scan(0, 0, false, false, 0)

  /** One token of the scan. */
  function Step(st: Scan, c: char): (r: Scan)
    ensures r.garbage == st.garbage || r.garbage == st.garbage + 1
  {
    if st.ignore then st.(ignore := false)
    else if st.inJunk then
      if c == Cancel then st.(ignore := true)
      else if c == CloseJunk then st.(inJunk := false)
      else st.(garbage := st.garbage + 1)
    else if c == OpenJunk then st.(inJunk := true)
    else if c == OpenGroup then st.(depth := st.depth + 1)
    else if c == CloseGroup then st.(score := st.score + st.depth, depth := st.depth - 1)
    else st
  }

  /** The scan after every token of `s`, from `st`. */
  function Run(st: Scan, s: string): (r: Scan)
    ensures r.garbage >= st.garbage
  {
    if |s| == 0 then st else Step(Run(st, s[..|s| - 1]), s[|s| - 1])
  }

  method CalculateScoreAndGarbage(data: string) returns (score: int, garbage: nat)
    ensures score == Run(Start, data).score && garbage == Run(Start, data).garbage
  {
    score := 0;
    var currentGroup := 0;
    var inJunk := false;
    var ignore := false;
    garbage := 0;
    for i := 0 to |data|
      invariant Scan(score, currentGroup, inJunk, ignore, garbage) == Run(Start, data[..i])
    {
      var token := data[i];
      assert data[..i + 1][..i] == data[..i];
      if ignore {
        ignore := false;
        continue;
      } else if inJunk {
        if token == Cancel {
          ignore := true;
        } else if token == CloseJunk {
          inJunk := false;
        } else {
          garbage := garbage + 1;
        }
      } else if token == OpenJunk {
        inJunk := true;
      } else if token == OpenGroup {
        currentGroup := currentGroup + 1;
      } else if token == CloseGroup {
        score := score + currentGroup;
        currentGroup := currentGroup - 1;
      }
    }
    assert data[..|data|] == data;
  }

  // ---------------------------------------------------------------------------
  // Properties of one token

  /** The token after `!` inside garbage is skipped: only the flag is cleared. */
  lemma CancelledToken(st: Scan, c: char)
    requires st.ignore
    ensures Step(st, c) == st.(ignore := false)
  {
  }

  /** Inside garbage, only `!` and `>` are special; every other token,
      `{`, `}` and `<` included, counts one garbage character and leaves
      depth and score alone. */
  lemma JunkToken(st: Scan, c: char)
    requires st.inJunk && !st.ignore
    ensures Step(st, c).score == st.score && Step(st, c).depth == st.depth
    ensures c != Cancel && c != CloseJunk <==> Step(st, c).garbage == st.garbage + 1
  {
  }

  /** Outside garbage, `}` adds the current depth to the score and then
      closes the group; `!` and any other non-bracket token do nothing. */
  lemma GroupTokens(st: Scan, c: char)
    requires !st.inJunk && !st.ignore
    ensures c == CloseGroup ==> Step(st, c) == st.(score := st.score + st.depth, depth := st.depth - 1)
    ensures c == OpenGroup ==> Step(st, c) == st.(depth := st.depth + 1)
    ensures c !in {OpenGroup, CloseGroup, OpenJunk} ==> Step(st, c) == st
    ensures Step(st, c).garbage == st.garbage
  {
  }

  lemma {:induction false} RunAppend(st: Scan, s: string, t: string)
    ensures Run(st, s + t) == Run(Run(st, s), t)
    decreases |t|
  {
    if |t| == 0 {
      assert s + t == s;
    } else {
      assert (s + t)[..|s + t| - 1] == s + t[..|t| - 1];
      RunAppend(st, s, t[..|t| - 1]);
    }
  }

  lemma RunCons(st: Scan, c: char, s: string)
    ensures Run(st, [c] + s) == Run(Step(st, c), s)
  {
    RunAppend(st, [c], s);
    assert [c][..0] == [];
  }

  // ---------------------------------------------------------------------------
  // A reference reading of the stream as a tree

  /** A garbage body: `!` followed by any character, or any character but
      `!` and `>`, repeated. */
  predicate ValidBody(b: string)
    decreases |b|
  {
    if |b| == 0 then true
    else if b[0] == Cancel then |b| >= 2 && ValidBody(b[2..])
    else b[0] != CloseJunk && ValidBody(b[1..])
  }

  /** The characters of a garbage body that count: neither `!` nor the
      character it cancels. */
  function BodyCount(b: string): nat
    requires ValidBody(b)
    decreases |b|
  {
    if |b| == 0 then 0
    else if b[0] == Cancel then BodyCount(b[2..])
    else 1 + BodyCount(b[1..])
  }

  /** What a stream is made of: groups of things, and garbage. */
  datatype Thing = Group(children: seq<Thing>) | Garbage(body: string)

  predicate ValidThing(t: Thing)
    decreases t
  {
    match t
    case Garbage(b) => ValidBody(b)
    case Group(cs) => forall i :: 0 <= i < |cs| ==> ValidThing(cs[i])
  }

  /** The text of a thing: a group's children are separated by commas. */
  function Render(t: Thing): string
    decreases t, 1
  {
    match t
    case Garbage(b) => [OpenJunk] + b + [CloseJunk]
    case Group(cs) => [OpenGroup] + RenderList(cs) + [CloseGroup]
  }

  function RenderList(cs: seq<Thing>): string
    decreases cs, 0
  {
    if |cs| == 0 then ""
    else if |cs| == 1 then Render(cs[0])
    else Render(cs[0]) + "," + RenderList(cs[1..])
  }

  /** Every group scores its depth; the outermost group is at depth 1. */
  function TreeScore(t: Thing, depth: int): int
    decreases t, 1
  {
    match t
    case Garbage(_) => 0
    case Group(cs) => depth + ListScore(cs, depth + 1)
  }

  function ListScore(cs: seq<Thing>, depth: int): int
    decreases cs, 0
  {
    if |cs| == 0 then 0 else TreeScore(cs[0], depth) + ListScore(cs[1..], depth)
  }

  function TreeGarbage(t: Thing): nat
    requires ValidThing(t)
    decreases t, 1
  {
    match t
    case Garbage(b) => BodyCount(b)
    case Group(cs) => ListGarbage(cs)
  }

  function ListGarbage(cs: seq<Thing>): nat
    requires forall i :: 0 <= i < |cs| ==> ValidThing(cs[i])
    decreases cs, 0
  {
    if |cs| == 0 then 0 else TreeGarbage(cs[0]) + ListGarbage(cs[1..])
  }

  /** Between tokens, outside garbage and with nothing to cancel. */
  predicate Idle(st: Scan) {
    !st.inJunk && !st.ignore
  }

  /** Scanning a garbage body from inside garbage counts exactly its
      uncancelled characters and nothing else. */
  lemma {:induction false} RunBody(st: Scan, b: string)
    requires st.inJunk && !st.ignore && ValidBody(b)
    ensures Run(st, b) == st.(garbage := st.garbage + BodyCount(b))
    decreases |b|
  {
    if |b| > 0 {
      if b[0] == Cancel {
        assert b == [b[0]] + ([b[1]] + b[2..]);
        RunCons(st, b[0], [b[1]] + b[2..]);
        RunCons(Step(st, b[0]), b[1], b[2..]);
        RunBody(st, b[2..]);
      } else {
        assert b == [b[0]] + b[1..];
        RunCons(st, b[0], b[1..]);
        RunBody(Step(st, b[0]), b[1..]);
      }
    }
  }

  /** Scanning the text of a thing from an idle state at depth `d` adds the
      thing's score at depth `d + 1` and its garbage count, and returns to
      an idle state at depth `d`. */
  lemma {:induction false} RunThing(st: Scan, t: Thing)
    requires Idle(st) && ValidThing(t)
    ensures Run(st, Render(t)) ==
      st.(score := st.score + TreeScore(t, st.depth + 1), garbage := st.garbage + TreeGarbage(t))
    decreases t, 2
  {
    match t
    case Garbage(b) => RunGarbage(st, b);
    case Group(cs) => RunGroup(st, cs);
  }

  lemma RunGarbage(st: Scan, b: string)
    requires Idle(st) && ValidBody(b)
    ensures Run(st, Render(Garbage(b))) == st.(garbage := st.garbage + BodyCount(b))
  {
    RunAppend(st, [OpenJunk] + b, [CloseJunk]);
    RunAppend(st, [OpenJunk], b);
    var inside := Run(st, [OpenJunk]);
    RunCons(st, OpenJunk, []);
    RunBody(inside, b);
    assert [CloseJunk] == [] + [CloseJunk];
  }

  lemma {:induction false} RunGroup(st: Scan, cs: seq<Thing>)
    requires Idle(st) && forall i :: 0 <= i < |cs| ==> ValidThing(cs[i])
    ensures Run(st, Render(Group(cs))) ==
      st.(score := st.score + st.depth + 1 + ListScore(cs, st.depth + 2), garbage := st.garbage + ListGarbage(cs))
    decreases cs, 1
  {
    RunAppend(st, [OpenGroup] + RenderList(cs), [CloseGroup]);
    RunAppend(st, [OpenGroup], RenderList(cs));
    RunCons(st, OpenGroup, []);
    var inside := Run(st, [OpenGroup]);
    RunList(inside, cs);
    assert [CloseGroup] == [] + [CloseGroup];
  }

  lemma {:induction false} RunList(st: Scan, cs: seq<Thing>)
    requires Idle(st) && forall i :: 0 <= i < |cs| ==> ValidThing(cs[i])
    ensures Run(st, RenderList(cs)) ==
      st.(score := st.score + ListScore(cs, st.depth + 1), garbage := st.garbage + ListGarbage(cs))
    decreases cs, 0
  {
    if |cs| > 0 {
      RunThing(st, cs[0]);
      ListUnfold(cs, st.depth + 1);
      if |cs| > 1 {
        var mid := Run(st, Render(cs[0]));
        RunComma(st, cs, mid);
        RunList(mid, cs[1..]);
      }
    }
  }

  lemma ListUnfold(cs: seq<Thing>, depth: int)
    requires |cs| > 0 && forall i :: 0 <= i < |cs| ==> ValidThing(cs[i])
    ensures ListScore(cs, depth) == TreeScore(cs[0], depth) + ListScore(cs[1..], depth)
    ensures ListGarbage(cs) == TreeGarbage(cs[0]) + ListGarbage(cs[1..])
    ensures |cs| == 1 ==> ListScore(cs[1..], depth) == 0 && ListGarbage(cs[1..]) == 0
  {
  }

  /** Past the first thing of a list, a comma leaves the scan as it was. */
  lemma RunComma(st: Scan, cs: seq<Thing>, mid: Scan)
    requires |cs| > 1 && mid == Run(st, Render(cs[0])) && Idle(mid)
    ensures RenderList(cs) == Render(cs[0]) + "," + RenderList(cs[1..])
    ensures Run(st, RenderList(cs)) == Run(mid, RenderList(cs[1..]))
  {
    RunAppend(st, Render(cs[0]) + ",", RenderList(cs[1..]));
    RunAppend(st, Render(cs[0]), ",");
    RunCons(mid, ',', []);
    assert "," == [','] + [];
  }

  /** The whole stream: scanning the text of a well-formed thing gives its
      tree score (outermost group 1) and its garbage count. */
  lemma ScanOfThing(t: Thing)
    requires ValidThing(t)
    ensures Run(Start, Render(t)).score == TreeScore(t, 1)
    ensures Run(Start, Render(t)).garbage == TreeGarbage(t)
    ensures Run(Start, Render(t)).depth == 0 && Idle(Run(Start, Render(t)))
  {
    RunThing(Start, t);
  }

  // ---------------------------------------------------------------------------
  // The depth never drops below where a well-formed thing starts

  /** Every prefix of `s`, scanned from `st`, leaves the depth at least `d`. */
  ghost predicate DepthAtLeast(st: Scan, s: string, d: int) {
    forall k :: 0 <= k <= |s| ==> Run(st, s[..k]).depth >= d
  }

  lemma DepthAppend(st: Scan, s: string, t: string, d: int)
    requires DepthAtLeast(st, s, d) && DepthAtLeast(Run(st, s), t, d)
    ensures DepthAtLeast(st, s + t, d)
  {
    forall k | 0 <= k <= |s + t| ensures Run(st, (s + t)[..k]).depth >= d {
      if k <= |s| {
        assert (s + t)[..k] == s[..k];
      } else {
        assert (s + t)[..k] == s + t[..k - |s|];
        RunAppend(st, s, t[..k - |s|]);
      }
    }
  }

  /** A single token leaves the depth at least `d` when the state before and
      after it does. */
  lemma DepthToken(st: Scan, c: char, d: int)
    requires st.depth >= d && Step(st, c).depth >= d
    ensures DepthAtLeast(st, [c], d)
    ensures Run(st, [c]) == Step(st, c)
  {
    assert [c][..0] == [];
    forall k | 0 <= k <= 1 ensures Run(st, [c][..k]).depth >= d {
      if k == 1 {
        assert [c][..1] == [c];
      }
    }
  }

  /** Inside garbage the depth does not move. */
  lemma {:induction false} BodyDepth(st: Scan, b: string)
    requires st.inJunk && !st.ignore && ValidBody(b)
    ensures DepthAtLeast(st, b, st.depth)
    decreases |b|
  {
    RunBody(st, b);
    if |b| == 0 {
      assert b[..0] == b;
    } else if b[0] == Cancel {
      var skipped := Step(st, b[0]);
      DepthToken(st, b[0], st.depth);
      DepthToken(skipped, b[1], st.depth);
      RunCons(st, b[0], [b[1]]);
      assert [b[0]] + [b[1]] == [b[0], b[1]];
      DepthAppend(st, [b[0]], [b[1]], st.depth);
      RunBody(st, b[2..]);
      BodyDepth(st, b[2..]);
      assert Run(st, [b[0], b[1]]) == st;
      DepthAppend(st, [b[0], b[1]], b[2..], st.depth);
      assert b == [b[0], b[1]] + b[2..];
    } else {
      DepthToken(st, b[0], st.depth);
      var next := Step(st, b[0]);
      BodyDepth(next, b[1..]);
      DepthAppend(st, [b[0]], b[1..], st.depth);
      assert b == [b[0]] + b[1..];
    }
  }

  /** Scanning the text of a thing from an idle state never takes the depth
      below where it started. */
  lemma {:induction false} ThingDepth(st: Scan, t: Thing)
    requires Idle(st) && ValidThing(t)
    ensures DepthAtLeast(st, Render(t), st.depth)
    decreases t, 2
  {
    match t
    case Garbage(b) =>
      var inside := Step(st, OpenJunk);
      DepthToken(st, OpenJunk, st.depth);
      BodyDepth(inside, b);
      DepthAppend(st, [OpenJunk], b, st.depth);
      RunAppend(st, [OpenJunk], b);
      RunBody(inside, b);
      var last := Run(st, [OpenJunk] + b);
      DepthToken(last, CloseJunk, st.depth);
      DepthAppend(st, [OpenJunk] + b, [CloseJunk], st.depth);
    case Group(cs) => GroupDepth(st, cs);
  }

  lemma {:induction false} GroupDepth(st: Scan, cs: seq<Thing>)
    requires Idle(st) && forall i :: 0 <= i < |cs| ==> ValidThing(cs[i])
    ensures DepthAtLeast(st, Render(Group(cs)), st.depth)
    decreases cs, 1
  {
    var inside := Step(st, OpenGroup);
    DepthToken(st, OpenGroup, st.depth);
    ListDepth(inside, cs);
    RunList(inside, cs);
    DepthAppend(st, [OpenGroup], RenderList(cs), st.depth);
    RunAppend(st, [OpenGroup], RenderList(cs));
    var last := Run(st, [OpenGroup] + RenderList(cs));
    DepthToken(last, CloseGroup, st.depth);
    DepthAppend(st, [OpenGroup] + RenderList(cs), [CloseGroup], st.depth);
  }

  lemma {:induction false} ListDepth(st: Scan, cs: seq<Thing>)
    requires Idle(st) && forall i :: 0 <= i < |cs| ==> ValidThing(cs[i])
    ensures DepthAtLeast(st, RenderList(cs), st.depth)
    decreases cs, 0
  {
    if |cs| == 0 {
      assert RenderList(cs)[..0] == RenderList(cs);
    } else if |cs| == 1 {
      ThingDepth(st, cs[0]);
    } else {
      ThingDepth(st, cs[0]);
      RunThing(st, cs[0]);
      var mid := Run(st, Render(cs[0]));
      DepthToken(mid, ',', st.depth);
      DepthAppend(st, Render(cs[0]), ",", st.depth);
      RunAppend(st, Render(cs[0]), ",");
      ListDepth(mid, cs[1..]);
      RunComma(st, cs, mid);
      assert Run(st, Render(cs[0]) + ",") == mid;
      DepthAppend(st, Render(cs[0]) + ",", RenderList(cs[1..]), st.depth);
    }
  }

  /** On a well-formed stream every `}` closes an earlier `{`: the depth never
      goes negative at any point of the scan. */
  lemma ScanDepth(t: Thing)
    requires ValidThing(t)
    ensures forall k :: 0 <= k <= |Render(t)| ==> Run(Start, Render(t)[..k]).depth >= 0
  {
    ThingDepth(Start, t);
  }

  lemma {:induction false} ValidBodyAppend(x: string, y: string)
    requires ValidBody(x) && ValidBody(y)
    ensures ValidBody(x + y)
    decreases |x|
  {
    if |x| > 0 {
      assert (x + y)[0] == x[0];
      if x[0] == Cancel {
        assert (x + y)[2..] == x[2..] + y;
        ValidBodyAppend(x[2..], y);
      } else {
        assert (x + y)[1..] == x[1..] + y;
        ValidBodyAppend(x[1..], y);
      }
    } else {
      assert x + y == y;
    }
  }

  /** A body with neither `!` nor `>` is valid garbage. */
  lemma {:induction false} PlainBody(b: string)
    requires forall i :: 0 <= i < |b| ==> b[i] != Cancel && b[i] != CloseJunk
    ensures ValidBody(b)
    decreases |b|
  {
    if |b| > 0 {
      PlainBody(b[1..]);
    }
  }

  const ExampleBody: string := "a!>},{<a!>},{<a!>},{<ab"

  lemma ExampleBodyPieces()
    ensures ExampleBody == "a" + ("!>" + ("},{<a" + ("!>" + ("},{<a" + ("!>" + "},{<ab")))))
  {
  }

  lemma ExampleBodyValid()
    ensures ValidBody(ExampleBody)
  {
    var skip := "!>";
    var mid := "},{<a";
    assert ValidBody(skip) by { assert skip[2..] == ""; }
    PlainBody("a");
    PlainBody(mid);
    PlainBody("},{<ab");
    ValidBodyAppend(skip, "},{<ab");
    ValidBodyAppend(mid, skip + "},{<ab");
    ValidBodyAppend(skip, mid + (skip + "},{<ab"));
    ValidBodyAppend(mid, skip + (mid + (skip + "},{<ab")));
    ValidBodyAppend(skip, mid + (skip + (mid + (skip + "},{<ab"))));
    ValidBodyAppend("a", skip + (mid + (skip + (mid + (skip + "},{<ab")))));
    ExampleBodyPieces();
  }

  /** One group holding one group holding one piece of garbage. */
  const ExampleThing: Thing := Group([Group([Garbage(ExampleBody)])])

  lemma ExampleRender()
    ensures Render(ExampleThing) == "{{<a!>},{<a!>},{<a!>},{<ab>}}"
  {
    var g := Garbage(ExampleBody);
    var inner := Group([g]);
    assert Render(g) == "<" + ExampleBody + ">";
    assert Render(inner) == "{" + Render(g) + "}";
    assert Render(ExampleThing) == "{" + Render(inner) + "}";
    ExampleText();
  }

  lemma ExampleText()
    ensures "{{<" + ExampleBody + ">}}" == "{{<a!>},{<a!>},{<a!>},{<ab>}}"
  {
    assert ExampleBody + ">}}" == "a!>},{<a!>},{<a!>},{<ab>}}";
    assert "{{<" + ExampleBody + ">}}" == "{{<" + (ExampleBody + ">}}");
  }

  lemma ExampleTreeScore()
    ensures TreeScore(ExampleThing, 1) == 3
  {
    var g := Garbage(ExampleBody);
    var inner := Group([g]);
    assert ListScore([g], 3) == TreeScore(g, 3) + ListScore([], 3);
    assert TreeScore(inner, 2) == 2;
    assert ListScore([inner], 2) == TreeScore(inner, 2) + ListScore([], 2);
  }

  /** `{{<a!>},{<a!>},{<a!>},{<ab>}}` scores 1 + 2 = 3: every `>` but the
      last is cancelled, so there is one inner group. */
  lemma ExampleScore()
    ensures Run(Start, "{{<a!>},{<a!>},{<a!>},{<ab>}}").score == 3
  {
    ExampleBodyValid();
    ExampleRender();
    ExampleTreeScore();
    ScanOfThing(ExampleThing);
  }
}
