/**
 * The pure pieces of `searchProducts`: the LIKE disjunction over search
 * terms, the named-placeholder bindings, the midpoint split of tokens into
 * fragments, and the id exclusion list.
 */
module SearchClauses {

  import opened Text
  import opened Products

  /** Cumulative row count a tier must exceed for the search to stop there. */
  const Threshold: nat := 5

  /** The name of the k-th named placeholder, `search{k}`. */
  function Placeholder(k: nat): string {
    "search" + NatToString(k)
  }

  lemma PlaceholderInjective(i: nat, j: nat)
    ensures Placeholder(i) == Placeholder(j) ==> i == j
  {
    if Placeholder(i) == Placeholder(j) {
      assert Placeholder(i)[6..] == NatToString(i);
      assert Placeholder(j)[6..] == NatToString(j);
      NatToStringInjective(i, j);
    }
  }

  /** The condition one term contributes: its placeholder against name or description. */
  function Disjunct(k: nat): string {
    "(p.name LIKE :" + Placeholder(k) + " OR p.description LIKE :" + Placeholder(k) + ")"
  }

  /** The disjuncts for term indices 0 .. n-1. */
  function Disjuncts(n: nat): (d: seq<string>)
    ensures |d| == n
    ensures forall k :: 0 <= k < n ==> d[k] == Disjunct(k)
  {
    seq(n, k requires 0 <= k < n => Disjunct(k))
  }

  /** Suffixes every element but the last with ` OR`, as the clause pieces are built. */
  function OrTerminated(d: seq<string>): (r: seq<string>)
    ensures |r| == |d|
  {
    seq(|d|, k requires 0 <= k < |d| => if k < |d| - 1 then d[k] + " OR" else d[k])
  }

  /** One clause piece per term; the pieces do not depend on the terms' text. */
  function WhereParts(terms: seq<string>): (parts: seq<string>)
    ensures |parts| == |terms|
  {
    OrTerminated(Disjuncts(|terms|))
  }

  /** The WHERE condition: the pieces joined with a space. */
  function WhereClause(terms: seq<string>): string {
    Join(WhereParts(terms), " ")
  }

  lemma {:induction false} OrTerminatedJoin(d: seq<string>)
    ensures Join(OrTerminated(d), " ") == Join(d, " OR ")
  {
    if |d| > 1 {
      var r := OrTerminated(d);
      assert r[1..] == OrTerminated(d[1..]);
      OrTerminatedJoin(d[1..]);
      assert r[0] + " " + Join(r[1..], " ") == d[0] + " OR " + Join(d[1..], " OR ");
    }
  }

  /**
   * The condition is the disjuncts for indices 0 .. n-1 in order, separated by
   * ` OR `: there is one per term and no trailing `OR`.
   */
  lemma WhereClauseIsDisjunction(terms: seq<string>)
    ensures WhereClause(terms) == Join(Disjuncts(|terms|), " OR ")
  {
    OrTerminatedJoin(Disjuncts(|terms|));
  }

  /** What a term is bound to: a substring pattern for LIKE. */
  function Pattern(term: string): string {
    "%" + term + "%"
  }

  /** The placeholder bindings, in the order the source assigns them. */
  function Replacements(terms: seq<string>): map<string, string> {
    if terms == [] then map[]
    else Replacements(terms[..|terms| - 1])[Placeholder(|terms| - 1) := Pattern(terms[|terms| - 1])]
  }

  /** The bindings have exactly the keys `search0 .. search{n-1}`. */
  lemma {:induction false} ReplacementsKeys(terms: seq<string>)
    ensures Replacements(terms).Keys == set k: nat | k < |terms| :: Placeholder(k)
  {
    if terms != [] {
      var n := |terms| - 1;
      ReplacementsKeys(terms[..n]);
      var before := set k: nat | k < n :: Placeholder(k);
      var after := set k: nat | k < |terms| :: Placeholder(k);
      assert Replacements(terms).Keys == before + {Placeholder(n)};
      assert after == before + {Placeholder(n)} by {
        forall key | key in after ensures key in before + {Placeholder(n)} {
          var k: nat :| k < |terms| && key == Placeholder(k);
          if k < n { assert key in before; }
        }
      }
    }
  }

  /** Each `search{k}` is bound to the pattern of term k. */
  lemma {:induction false} ReplacementsBind(terms: seq<string>, k: nat)
    requires k < |terms|
    ensures Placeholder(k) in Replacements(terms)
    ensures Replacements(terms)[Placeholder(k)] == Pattern(terms[k])
  {
    var n := |terms| - 1;
    if k < n {
      var init := terms[..n];
      ReplacementsBind(init, k);
      PlaceholderInjective(k, n);
      assert init[k] == terms[k];
    }
  }

  /** The midpoint split of a token, `substring(0, mid)` and `substring(mid)`. */
  function Halves(token: string): (h: (string, string))
    ensures h.0 + h.1 == token
    ensures |h.0| == |token| / 2
  {
    var mid := |token| / 2;
    (token[..mid], token[mid..])
  }

  /** Every token's two halves, flattened in token order. */
  function Fragments(tokens: seq<string>): (f: seq<string>)
    ensures |f| == 2 * |tokens|
  {
    if tokens == [] then []
    else [Halves(tokens[0]).0, Halves(tokens[0]).1] + Fragments(tokens[1..])
  }

  /** Fragments 2k and 2k+1 are the first and second half of token k. */
  lemma {:induction false} FragmentsAt(tokens: seq<string>, k: nat)
    requires k < |tokens|
    ensures Fragments(tokens)[2 * k] + Fragments(tokens)[2 * k + 1] == tokens[k]
    ensures |Fragments(tokens)[2 * k]| == |tokens[k]| / 2
  {
    if k > 0 {
      FragmentsAt(tokens[1..], k - 1);
      assert Fragments(tokens)[2..] == Fragments(tokens[1..]);
    }
  }

  /**
   * A token of at most one character (a lone letter, or the empty token of a
   * doubled space) yields an empty fragment, whose pattern `%%` matches every row.
   */
  lemma ShortTokenMatchesAll(tokens: seq<string>, k: nat)
    requires k < |tokens| && |tokens[k]| <= 1
    ensures Placeholder(2 * k) in Replacements(Fragments(tokens))
    ensures Replacements(Fragments(tokens))[Placeholder(2 * k)] == "%%"
  {
    FragmentsAt(tokens, k);
    ReplacementsBind(Fragments(tokens), 2 * k);
  }

  /** The ids excluded from the substring tiers: the tier-1 ids, or `[0]` when there are none. */
  function Exclusion(tier1: seq<Product>): (ids: seq<nat>)
    ensures |ids| >= 1
    ensures tier1 != [] ==> |ids| == |tier1| && forall i :: 0 <= i < |tier1| ==> ids[i] == tier1[i].id
    ensures tier1 == [] ==> ids == [0]
  {
    if tier1 == [] then [0] else Ids(tier1)
  }
}
