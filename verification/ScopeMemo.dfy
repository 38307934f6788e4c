/** The per-request memo of resolved scopes: one decision per principal, model and operation. */
module ScopeMemo {
  import opened Printing
  import opened Codecs
  import opened Scopes

  /** A principal's id: text, a whole number, missing, or a composite value by its serialized text. */
  datatype PrincipalId = Text(s: string) | Whole(n: int) | Anonymous | Composite(json: string)

  const NUL: char := 0 as char

  function PrincipalKey(p: PrincipalId): string {
    match p
    case Text(s) => s
    case Whole(n) => PrintInt(n)
    case Anonymous => [NUL] + "anonymous"
    case Composite(json) => [NUL] + "json:" + json
  }

  /** A text id spelled like the key of another kind of id: a whole number as printed, or the two reserved marks. */
  predicate Reserved(s: string) {
    || (IsInteger(s) && PrintInt(ReadInteger(s)) == s)
    || s == [NUL] + "anonymous"
    || StartsWith(s, [NUL] + "json:")
  }

  lemma OtherKindIsReserved(q: PrincipalId)
    requires !q.Text?
    ensures Reserved(PrincipalKey(q))
  {
    if q.Whole? {
      IntReads(q.n);
    } else if q.Composite? {
      assert PrincipalKey(q)[..6] == [NUL] + "json:";
    }
  }

  lemma ReservedIsOtherKind(s: string) returns (q: PrincipalId)
    requires Reserved(s)
    ensures !q.Text? && PrincipalKey(q) == s
  {
    if IsInteger(s) && PrintInt(ReadInteger(s)) == s {
      q := Whole(ReadInteger(s));
    } else if s == [NUL] + "anonymous" {
      q := Anonymous;
    } else {
      assert s == [NUL] + "json:" + s[6..];
      q := Composite(s[6..]);
    }
  }

  /** A text id shares its key with another kind of id if and only if it is spelled like one. */
  lemma TextCollidesIff(s: string)
    ensures (exists q: PrincipalId :: !q.Text? && PrincipalKey(q) == s) <==> Reserved(s)
  {
    if q: PrincipalId :| !q.Text? && PrincipalKey(q) == s {
      OtherKindIsReserved(q);
    }
    if Reserved(s) {
      var q := ReservedIsOtherKind(s);
    }
  }

  lemma KeyKind(p: PrincipalId)
    requires !p.Text?
    ensures var k := PrincipalKey(p);
            && (p.Whole? <==> IsInteger(k))
            && (p.Whole? ==> ReadInteger(k) == p.n)
            && (p.Anonymous? ==> |k| > 1 && k[1] == 'a')
            && (p.Composite? ==> |k| >= 6 && k[1] == 'j' && k[6..] == p.json)
  {
    if p.Whole? {
      IntReads(p.n);
    }
  }

  /** Principals whose text ids are not spelled like another kind share a key only if they are the same. */
  lemma PrincipalKeyInjective(p: PrincipalId, q: PrincipalId)
    requires (p.Text? ==> !Reserved(p.s)) && (q.Text? ==> !Reserved(q.s))
    ensures PrincipalKey(p) == PrincipalKey(q) <==> p == q
  {
    if PrincipalKey(p) == PrincipalKey(q) {
      if p.Text? && !q.Text? {
        TextCollidesIff(p.s);
      } else if q.Text? && !p.Text? {
        TextCollidesIff(q.s);
      } else if !p.Text? {
        KeyKind(p);
        KeyKind(q);
      }
    }
  }

  function MemoKey(principal: string, model: string, operation: string): string {
    principal + [NUL] + model + [NUL] + operation
  }

  /** Whatever the principal's key holds, the memo key determines all three parts. */
  lemma MemoKeyInjective(p: string, m: string, o: string, q: string, n: string, u: string)
    requires NUL !in m && NUL !in o && NUL !in n && NUL !in u
    requires MemoKey(p, m, o) == MemoKey(q, n, u)
    ensures p == q && m == n && o == u
  {
    CutAtLast(p + [NUL] + m, q + [NUL] + n, o, u, NUL);
    CutAtLast(p, q, m, n, NUL);
  }

  /** One question to the memo: answered from it, or by the predicate and then kept. */
  ghost predicate Asks(a: map<string, ResolvedScope>, b: map<string, ResolvedScope>, key: string, answer: ResolvedScope, reply: ResolvedScope) {
    reply == (if key in a then a[key] else answer) && b == a[key := reply]
  }

  class Memo {
    var decisions: map<string, ResolvedScope>

    constructor ()
      ensures decisions == map[]
    {
      decisions := map[];
    }

    /** `answer` is what the predicate would say if asked now. */
    method ScopeFor(principal: PrincipalId, model: string, operation: string, answer: ResolvedScope) returns (reply: ResolvedScope)
      modifies this
      ensures Asks(old(decisions), decisions, MemoKey(PrincipalKey(principal), model, operation), answer, reply)
    {
      var key := MemoKey(PrincipalKey(principal), model, operation);
      if key in decisions {
        return decisions[key];
      }
      reply := answer;
      decisions := decisions[key := reply];
    }
  }

  datatype Question = Question(key: string, answer: ResolvedScope, reply: ResolvedScope)

  ghost predicate Conversation(memos: seq<map<string, ResolvedScope>>, asked: seq<Question>) {
    && |memos| == |asked| + 1
    && forall t | 0 <= t < |asked| :: Asks(memos[t], memos[t + 1], asked[t].key, asked[t].answer, asked[t].reply)
  }

  /** A decision once made stands for the rest of the request. */
  lemma {:induction false} DecisionStands(memos: seq<map<string, ResolvedScope>>, asked: seq<Question>, i: nat, j: nat)
    requires Conversation(memos, asked) && i < j <= |asked|
    ensures asked[i].key in memos[j] && memos[j][asked[i].key] == asked[i].reply
  {
    if j > i + 1 {
      DecisionStands(memos, asked, i, j - 1);
      assert Asks(memos[j - 1], memos[j], asked[j - 1].key, asked[j - 1].answer, asked[j - 1].reply);
    } else {
      assert Asks(memos[i], memos[i + 1], asked[i].key, asked[i].answer, asked[i].reply);
    }
  }

  /** Within one request the same question always gets the same decision, whatever the predicate would now say. */
  lemma OneDecision(memos: seq<map<string, ResolvedScope>>, asked: seq<Question>, i: nat, j: nat)
    requires Conversation(memos, asked) && i < j < |asked| && asked[i].key == asked[j].key
    ensures asked[i].reply == asked[j].reply
  {
    DecisionStands(memos, asked, i, j);
    assert Asks(memos[j], memos[j + 1], asked[j].key, asked[j].answer, asked[j].reply);
  }
}
