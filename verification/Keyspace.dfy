/**
 How keys are written in the store: distinct keys print distinctly, and when the
 text `:u:` tells a unique key from an index key.
 */
module Keyspace {
  import opened Redis

  function Render(prefix: string, k: Key): string {
    prefix + [':'] + (k.model + [':'] + Tail(k))
  }

  /** The family mark and what follows it. */
  function Tail(k: Key): string {
    match k
    case Obj(_, id) => "o:" + id
    case Ids(_) => "ids"
    case Index(_, field, segment) => "i:" + field + [':'] + segment
    case Unique(_, field, segment) => "u:" + field + [':'] + segment
    case Member(_, id) => "m:" + id
    case Seq(_) => "seq"
  }

  /** The six families as they are written. */
  lemma RenderShows()
    ensures Render("p", Obj("M", "7")) == "p:M:o:7" && Render("p", Ids("M")) == "p:M:ids"
    ensures Render("p", Index("M", "f", "v")) == "p:M:i:f:v" && Render("p", Unique("M", "f", "v")) == "p:M:u:f:v"
    ensures Render("p", Member("M", "7")) == "p:M:m:7" && Render("p", Seq("M")) == "p:M:seq"
  {}

  /** Model and field names hold no colon; ids and segments may. */
  predicate Named(k: Key) {
    && ':' !in k.model
    && (k.Index? || k.Unique? ==> ':' !in k.field)
  }

  lemma LaterMark(x: string, y: string, s: string, t: string, mark: char)
    requires x + [mark] + s == y + [mark] + t && |x| < |y|
    ensures mark in y
  {
    assert (x + [mark] + s)[|x|] == (y + [mark] + t)[|x|] == y[|x|];
  }

  /** Two texts cut at their first mark are cut alike. */
  lemma CutAtFirst(x: string, y: string, s: string, t: string, mark: char)
    requires x + [mark] + s == y + [mark] + t
    requires mark !in x && mark !in y
    ensures x == y && s == t
  {
    var w := x + [mark] + s;
    assert |x| == |y| by {
      if |x| < |y| {
        LaterMark(x, y, s, t, mark);
      } else if |y| < |x| {
        LaterMark(y, x, t, s, mark);
      }
    }
    assert x == w[..|x|] == y;
    assert s == w[|x| + 1..] == t;
  }

  lemma TailInjective(a: Key, b: Key)
    requires Tail(a) == Tail(b) && Named(a) && Named(b) && a.model == b.model
    ensures a == b
  {
    assert Tail(a)[0] == Tail(b)[0];
    assert Tail(a)[1] == Tail(b)[1];
    match a
    case Obj(_, id) => assert Tail(a)[2..] == id && Tail(b)[2..] == b.id;
    case Member(_, id) => assert Tail(a)[2..] == id && Tail(b)[2..] == b.id;
    case Ids(_) =>
    case Seq(_) =>
    case Index(_, f, s) =>
      assert Tail(a)[2..] == f + [':'] + s && Tail(b)[2..] == b.field + [':'] + b.segment;
      CutAtFirst(f, b.field, s, b.segment, ':');
    case Unique(_, f, s) =>
      assert Tail(a)[2..] == f + [':'] + s && Tail(b)[2..] == b.field + [':'] + b.segment;
      CutAtFirst(f, b.field, s, b.segment, ':');
  }

  /** Distinct keys print distinctly, across all families. */
  lemma RenderInjective(prefix: string, a: Key, b: Key)
    requires Named(a) && Named(b) && Render(prefix, a) == Render(prefix, b)
    ensures a == b
  {
    var x, y := a.model + [':'] + Tail(a), b.model + [':'] + Tail(b);
    assert Render(prefix, a)[|prefix| + 1..] == x;
    assert Render(prefix, b)[|prefix| + 1..] == y;
    CutAtFirst(a.model, b.model, Tail(a), Tail(b), ':');
    TailInjective(a, b);
  }

  // ---- telling unique keys by their text ----

  /** `includes(":u:")`. */
  predicate Marked(s: string) {
    exists i :: 0 <= i < |s| && MarkAt(s, i)
  }

  predicate SegmentMarked(s: string) {
    (|s| >= 2 && s[0] == 'u' && s[1] == ':') || Marked(s)
  }

  /** Every unique key is read as unique. */
  lemma UniqueIsRead(prefix: string, k: Key)
    requires k.Unique?
    ensures Marked(Render(prefix, k))
  {
    var s := Render(prefix, k);
    var i := |prefix| + 1 + |k.model|;
    assert s == (prefix + [':'] + k.model) + (":u:" + k.field + [':'] + k.segment);
    assert MarkAt(s, i);
  }

  /** Where the fourth colon of a printed index key is; the value's text follows it. */
  function ValueMark(prefix: string, k: Key): nat
    requires k.Index?
  {
    |prefix| + |k.model| + |k.field| + 4
  }

  lemma TailText(field: string, segment: string)
    ensures var t, d := "i:" + field + [':'] + segment, |field| + 2;
            && |t| == d + 1 + |segment| && t[0] == 'i' && t[1] == ':' && t[d] == ':'
            && (forall j | 2 <= j < d :: t[j] == field[j - 2])
            && (forall j | d < j < |t| :: t[j] == segment[j - d - 1])
  {}

  lemma HeadText(prefix: string, model: string, t: string)
    ensures var s, a, b := prefix + [':'] + (model + [':'] + t), |prefix|, |prefix| + 1 + |model|;
            && |s| == b + 1 + |t| && s[a] == ':' && s[b] == ':'
            && (forall j | 0 <= j < a :: s[j] == prefix[j])
            && (forall j | a < j < b :: s[j] == model[j - a - 1])
            && (forall j | b < j < |s| :: s[j] == t[j - b - 1])
  {}

  lemma IndexText(prefix: string, k: Key)
    requires k.Index?
    ensures var s, a, d := Render(prefix, k), |prefix|, ValueMark(prefix, k);
            var b := a + 1 + |k.model|;
            && |s| == d + 1 + |k.segment|
            && s[a] == ':' && s[b] == ':' && s[b + 1] == 'i' && s[b + 2] == ':' && s[d] == ':'
            && (forall j | 0 <= j < a :: s[j] == prefix[j])
            && (forall j | a < j < b :: s[j] == k.model[j - a - 1])
            && (forall j | b + 2 < j < d :: s[j] == k.field[j - b - 3])
            && (forall j | d < j < |s| :: s[j] == k.segment[j - d - 1])
  {
    TailText(k.field, k.segment);
    HeadText(prefix, k.model, Tail(k));
  }

  /** Where a printed index key can hold a colon past its prefix. */
  lemma ColonPlaces(prefix: string, k: Key, i: nat)
    requires k.Index? && Named(k)
    requires |prefix| <= i < |Render(prefix, k)| && Render(prefix, k)[i] == ':'
    ensures var b := |prefix| + 1 + |k.model|;
            i == |prefix| || i == b || i == b + 2 || i >= ValueMark(prefix, k)
  {
    IndexText(prefix, k);
  }

  predicate MarkAt(s: string, i: int) {
    0 <= i < |s| - 2 && s[i] == ':' && s[i + 1] == 'u' && s[i + 2] == ':'
  }

  /** A mark inside the prefix and its colon is a mark of the printed key, and the other way round. */
  lemma MarkInPrefix(prefix: string, k: Key, i: nat)
    requires k.Index? && i + 2 <= |prefix|
    ensures MarkAt(Render(prefix, k), i) <==> MarkAt(prefix + [':'], i)
  {
    IndexText(prefix, k);
  }

  /** A mark that ends past the prefix is the model, the field, or in the value. */
  lemma MarkPastPrefix(prefix: string, k: Key, i: nat)
    requires k.Index? && Named(k) && i + 2 > |prefix| && MarkAt(Render(prefix, k), i)
    ensures k.model == "u" || k.field == "u" || SegmentMarked(k.segment)
  {
    var s, a, d := Render(prefix, k), |prefix|, ValueMark(prefix, k);
    var b := a + 1 + |k.model|;
    IndexText(prefix, k);
    ColonPlaces(prefix, k, i + 2);
    if i >= a {
      ColonPlaces(prefix, k, i);
      if i > d {
        var j := i - d - 1;
        assert k.segment[j] == ':' && k.segment[j + 1] == 'u' && k.segment[j + 2] == ':';
        assert MarkAt(k.segment, j);
      } else if i == d {
        assert k.segment[0] == 'u' && k.segment[1] == ':';
      } else if i == b + 2 {
        assert i + 2 == d && k.field[0] == 'u';
      } else if i == a {
        assert i + 2 == b && k.model[0] == 'u';
      }
    }
  }

  /** The marks of the model, the field and the value are marks of the printed key. */
  lemma MarksShow(prefix: string, k: Key)
    requires k.Index?
    ensures k.model == "u" || k.field == "u" || SegmentMarked(k.segment) ==> Marked(Render(prefix, k))
  {
    IndexText(prefix, k);
    var s, d := Render(prefix, k), ValueMark(prefix, k);
    if k.model == "u" {
      assert MarkAt(s, |prefix|);
    } else if k.field == "u" {
      assert MarkAt(s, d - 2);
    } else if |k.segment| >= 2 && k.segment[0] == 'u' && k.segment[1] == ':' {
      assert MarkAt(s, d);
    } else if i :| MarkAt(k.segment, i) {
      assert s[d + 1 + i] == k.segment[i] && s[d + 2 + i] == k.segment[i + 1] && s[d + 3 + i] == k.segment[i + 2];
      assert MarkAt(s, d + 1 + i);
    }
  }

  /**
   An index key is misread as unique if and only if its model or field is `u`,
   its value's text starts with `u:` or holds `:u:`, or the prefix and its colon
   hold `:u:`.
   */
  lemma IndexMisreadIff(prefix: string, k: Key)
    requires k.Index? && Named(k)
    ensures Marked(Render(prefix, k)) <==>
            k.model == "u" || k.field == "u" || SegmentMarked(k.segment) || Marked(prefix + [':'])
  {
    if i :| MarkAt(Render(prefix, k), i) {
      if i + 2 <= |prefix| {
        MarkInPrefix(prefix, k, i);
      } else {
        MarkPastPrefix(prefix, k, i);
      }
    }
    MarksShow(prefix, k);
    if i :| MarkAt(prefix + [':'], i) {
      MarkInPrefix(prefix, k, i);
    }
  }
}
