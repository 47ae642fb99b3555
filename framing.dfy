/**
  Text built as a run of framed items, `open + item + close` for each item
  in order, together with a reader that recovers the items. The XML
  descriptors emitted by CoreUtils are all of this shape, and the reader
  is the reference against which their generators are checked.
 */
module Framing {
  import opened JavaLang

  /** One item between its opening and closing text. */
  function Frame(open: string, close: string, x: string): string {
    open + x + close
  }

  /** Every item of `xs` framed, in order. */
  function Framed(open: string, close: string, xs: seq<string>): string {
    if |xs| == 0 then "" else Frame(open, close, xs[0]) + Framed(open, close, xs[1..])
  }

  /** The longest prefix of `s` that does not contain `stop`. */
  function TakeUntil(s: string, stop: char): (t: string)
    ensures |t| <= |s| && t == s[..|t|]
    ensures stop !in t
    ensures |t| < |s| ==> s[|t|] == stop
  {
    if |s| == 0 || s[0] == stop then "" else [s[0]] + TakeUntil(s[1..], stop)
  }

  /** The text strictly between a leading `pre` and a trailing `post`, if `s` has both. */
  function Between(s: string, pre: string, post: string): (r: Option<string>)
    ensures r.Some? ==> s == pre + r.value + post
  {
    if |pre| + |post| <= |s| && s[..|pre|] == pre && s[|s| - |post|..] == post then
      assert s == s[..|pre|] + s[|pre|..|s| - |post|] + s[|s| - |post|..];
      Some(s[|pre|..|s| - |post|])
    else None
  }

  /**
    The first framed item of `s` and the text after its frame: `s` must
    start with `open`, the item runs up to the first character of `close`,
    and `close` must follow in full.
   */
  function FirstFrame(open: string, close: string, s: string): (r: Option<(string, string)>)
    requires |close| > 0
    ensures r.Some? ==> s == open + r.value.0 + close + r.value.1 && close[0] !in r.value.0
  {
    if !(|open| <= |s| && s[..|open|] == open) then None
    else
      var rest := s[|open|..];
      var x := TakeUntil(rest, close[0]);
      var after := rest[|x|..];
      if !(|close| <= |after| && after[..|close|] == close) then None
      else
        SplitThree(open, x, close, s);
        Some((x, after[|close|..]))
  }

  /** Reads `s` as a run of framed items, one `FirstFrame` after another; fails on anything else. */
  function ParseFramed(open: string, close: string, s: string): Option<seq<string>>
    requires |close| > 0
    decreases |s|
  {
    if |s| == 0 then Some([])
    else
      match FirstFrame(open, close, s)
      case None => None
      case Some((x, tail)) =>
        match ParseFramed(open, close, tail)
        case Some(xs) => Some([x] + xs)
        case None => None
  }

  // ---------------------------------------------------------------------
  // Lemmas
  // ---------------------------------------------------------------------

  /** `Between` finds the middle of any text built from its two ends. */
  lemma BetweenOf(pre: string, mid: string, post: string)
    ensures Between(pre + mid + post, pre, post) == Some(mid)
  {
    var s := pre + mid + post;
    assert s[..|pre|] == pre;
    assert s[|s| - |post|..] == post;
    assert s[|pre|..|s| - |post|] == mid;
  }

  /** Reading up to `stop` stops exactly at the first `stop`. */
  lemma {:induction false} TakeUntilFirst(x: string, stop: char, rest: string)
    requires stop !in x
    ensures TakeUntil(x + [stop] + rest, stop) == x
  {
    if |x| > 0 {
      assert (x + [stop] + rest)[1..] == x[1..] + [stop] + rest;
      TakeUntilFirst(x[1..], stop, rest);
    }
  }

  /** Framing a concatenation frames each part. */
  lemma {:induction false} FramedConcat(open: string, close: string, xs: seq<string>, ys: seq<string>)
    ensures Framed(open, close, xs + ys) == Framed(open, close, xs) + Framed(open, close, ys)
  {
    if |xs| == 0 {
      assert xs + ys == ys;
    } else {
      assert (xs + ys)[1..] == xs[1..] + ys;
      FramedConcat(open, close, xs[1..], ys);
    }
  }

  /** Framing one more item at the end appends its frame. */
  lemma FramedSnoc(open: string, close: string, xs: seq<string>, x: string)
    ensures Framed(open, close, xs + [x]) == Framed(open, close, xs) + Frame(open, close, x)
  {
    FramedConcat(open, close, xs, [x]);
    assert [x][1..] == [];
  }

  /** After any fixed text, appending an item's opening, the item and its closing extends the framed run by that item. */
  lemma FramedAppend(prefix: string, open: string, close: string, xs: seq<string>, x: string)
    ensures prefix + Framed(open, close, xs) + open + x + close == prefix + Framed(open, close, xs + [x])
  {
    FramedSnoc(open, close, xs, x);
  }

  /** Framing one more item at the front prepends its frame. */
  lemma FramedCons(open: string, close: string, x: string, xs: seq<string>)
    ensures Framed(open, close, [x] + xs) == Frame(open, close, x) + Framed(open, close, xs)
  {
    assert ([x] + xs)[1..] == xs;
  }

  /** Items that do not contain the first character of `close` are read back exactly. */
  lemma {:induction false} ParseFramedRoundTrip(open: string, close: string, xs: seq<string>)
    requires |close| > 0
    requires forall i :: 0 <= i < |xs| ==> close[0] !in xs[i]
    ensures ParseFramed(open, close, Framed(open, close, xs)) == Some(xs)
  {
    if |xs| > 0 {
      var x, xs' := xs[0], xs[1..];
      assert xs == [x] + xs';
      FramedCons(open, close, x, xs');
      ParseFramedRoundTrip(open, close, xs');
      FirstFrameOf(open, close, x, Framed(open, close, xs'));
    }
  }

  /** A leading frame whose item lacks the stop character is read as that item, leaving the text after it. */
  lemma FirstFrameOf(open: string, close: string, x: string, tail: string)
    requires |close| > 0 && close[0] !in x
    ensures FirstFrame(open, close, open + x + close + tail) == Some((x, tail))
  {
    var s := open + x + close + tail;
    assert s[..|open|] == open;
    var rest := s[|open|..];
    assert rest == x + [close[0]] + (close[1..] + tail);
    TakeUntilFirst(x, close[0], close[1..] + tail);
    var after := rest[|x|..];
    assert after == close + tail;
    assert after[..|close|] == close;
    assert after[|close|..] == tail;
  }

  /** Whatever the reader accepts is exactly the framing of the items it returns, none of which contains the stop character. */
  lemma {:induction false} ParseFramedSound(open: string, close: string, s: string)
    requires |close| > 0
    requires ParseFramed(open, close, s).Some?
    ensures Framed(open, close, ParseFramed(open, close, s).value) == s
    ensures var xs := ParseFramed(open, close, s).value;
      forall i :: 0 <= i < |xs| ==> close[0] !in xs[i]
    decreases |s|
  {
    if |s| > 0 {
      var (x, tail) := FirstFrame(open, close, s).value;
      ParseFramedSound(open, close, tail);
      var xs' := ParseFramed(open, close, tail).value;
      FramedCons(open, close, x, xs');
      assert forall i :: 1 <= i < |[x] + xs'| ==> ([x] + xs')[i] == xs'[i - 1];
    }
  }

  /** A text that starts with `open`, then `x`, then `close`, is those three followed by what is left. */
  lemma SplitThree(open: string, x: string, close: string, s: string)
    requires |open| <= |s| && s[..|open|] == open
    requires |x| <= |s[|open|..]| && x == s[|open|..][..|x|]
    requires |close| <= |s[|open|..][|x|..]| && s[|open|..][|x|..][..|close|] == close
    ensures s == open + x + close + s[|open|..][|x|..][|close|..]
  {
    var rest := s[|open|..];
    var after := rest[|x|..];
    assert s == s[..|open|] + rest;
    assert rest == rest[..|x|] + after;
    assert after == after[..|close|] + after[|close|..];
  }
}
