/**
 * The tiered product search `searchProducts`. The database is an oracle from
 * queries to rows; `None` stands for a query that threw, which the source
 * catches and turns into a `null` result for the whole call.
 */
module ProductSearch {

  import opened Wrappers
  import opened Text
  import opened Products
  import opened SearchClauses

  /** The LIKE condition of a substring tier and the bindings of its placeholders. */
  datatype LikeClause = LikeClause(where: string, replacements: map<string, string>)

  /** The parameters a tier sends to the database. */
  datatype Query =
    | Relevance(pattern: string, categoryId: int, storeId: int)
    | Substring(clause: LikeClause, excluded: seq<nat>, categoryId: int, storeId: int)

  /** Storage: the rows a query returns, or `None` when the query fails. */
  type Storage = Query -> Option<seq<Product>>

  /** The rows returned, and every query issued, in issue order. */
  datatype Outcome = Outcome(result: Option<seq<Product>>, issued: seq<Query>)

  /** The clause matching any of the terms in name or description. */
  function Clause(terms: seq<string>): LikeClause {
    LikeClause(WhereClause(terms), Replacements(terms))
  }

  /** Tier 1: full-text match on the whole search string. */
  function RelevanceQuery(storeId: int, categoryId: int, search: string): Query {
    Relevance(Pattern(search), categoryId, storeId)
  }

  /**
   * The tier control flow: the full-text query first; the first substring
   * clause unless it returned more than five rows; the second one unless the
   * two together returned more than five. Both substring queries exclude the
   * tier-1 ids.
   */
  function Escalate(db: Storage, relevance: Query, words: LikeClause, halves: LikeClause,
                    storeId: int, categoryId: int): Outcome
  {
    match db(relevance)
    case None => Outcome(None, [relevance])
    case Some(tier1) =>
      if |tier1| > Threshold then Outcome(Some(tier1), [relevance])
      else
        var excluded := Exclusion(tier1);
        var q2 := Substring(words, excluded, categoryId, storeId);
        match db(q2)
        case None => Outcome(None, [relevance, q2])
        case Some(tier2) =>
          if |tier1| + |tier2| > Threshold then Outcome(Some(tier1 + tier2), [relevance, q2])
          else
            var q3 := Substring(halves, excluded, categoryId, storeId);
            match db(q3)
            case None => Outcome(None, [relevance, q2, q3])
            case Some(tier3) => Outcome(Some(tier1 + tier2 + tier3), [relevance, q2, q3])
  }

  /** The space-separated tokens of the search string. */
  function Tokens(search: string): seq<string> {
    Split(search, ' ')
  }

  /** What `searchProducts` returns and which queries it issues. */
  function Search(db: Storage, storeId: int, categoryId: int, search: string): Outcome {
    var tokens := Tokens(search);
    Escalate(db, RelevanceQuery(storeId, categoryId, search), Clause(tokens), Clause(Fragments(tokens)),
             storeId, categoryId)
  }

  /** Fills the placeholder bindings one term at a time. */
  method BuildReplacements(terms: seq<string>) returns (m: map<string, string>)
    ensures m == Replacements(terms)
  {
    m := map[];
    for k := 0 to |terms|
      invariant m == Replacements(terms[..k])
    {
      assert terms[..k + 1][..k] == terms[..k];
      m := m[Placeholder(k) := Pattern(terms[k])];
    }
    assert terms[..|terms|] == terms;
  }

  /** Runs the tiers in sequence, stopping once more than five rows have been found. */
  method SearchProducts(db: Storage, storeId: int, categoryId: int, search: string)
    returns (result: Option<seq<Product>>, ghost issued: seq<Query>)
    ensures result == Search(db, storeId, categoryId, search).result
    ensures issued == Search(db, storeId, categoryId, search).issued
  {
    var q1 := Relevance(Pattern(search), categoryId, storeId);
    ghost var tokensSpec := Tokens(search);
    ghost var words, halves := Clause(tokensSpec), Clause(Fragments(tokensSpec));
    assert Search(db, storeId, categoryId, search) == Escalate(db, q1, words, halves, storeId, categoryId);
    issued := [q1];
    var first := db(q1);
    if first.None? {
      return None, issued;
    }
    var tier1 := first.value;
    if |tier1| > Threshold {
      return Some(tier1), issued;
    }

    var retrievedIds := Ids(tier1);
    var tokens := Split(search, ' ');
    var where := WhereClause(tokens);
    if |retrievedIds| == 0 {
      retrievedIds := retrievedIds + [0];
    }
    assert retrievedIds == Exclusion(tier1);
    var replacements := BuildReplacements(tokens);
    assert LikeClause(where, replacements) == words;
    var q2 := Substring(LikeClause(where, replacements), retrievedIds, categoryId, storeId);
    issued := issued + [q2];
    var second := db(q2);
    if second.None? {
      return None, issued;
    }
    var tier2 := second.value;
    if |tier2| + |tier1| > Threshold {
      return Some(tier1 + tier2), issued;
    }

    var fragments := Fragments(tokens);
    var whereThird := WhereClause(fragments);
    var replacementsThird := BuildReplacements(fragments);
    assert LikeClause(whereThird, replacementsThird) == halves;
    var q3 := Substring(LikeClause(whereThird, replacementsThird), retrievedIds, categoryId, storeId);
    issued := issued + [q3];
    var third := db(q3);
    if third.None? {
      return None, issued;
    }
    result := Some(tier1 + tier2 + third.value);
  }

  /**
   * The rows of the given queries' answers, concatenated in query order, or
   * `None` as soon as one of them fails: no partial result.
   */
  function Answers(db: Storage, queries: seq<Query>): Option<seq<Product>> {
    if queries == [] then Some([])
    else
      match db(queries[0])
      case None => None
      case Some(rows) =>
        match Answers(db, queries[1..])
        case None => None
        case Some(rest) => Some(rows + rest)
  }

  /**
   * Between one and three queries are issued, the full-text one first; none
   * is issued after a failing one; and the result is their answers
   * concatenated in tier order, or `None` when any of them failed.
   */
  lemma ResultIsAnswersInOrder(db: Storage, relevance: Query, words: LikeClause, halves: LikeClause,
                               storeId: int, categoryId: int)
    ensures var o := Escalate(db, relevance, words, halves, storeId, categoryId);
      && 1 <= |o.issued| <= 3
      && o.issued[0] == relevance
      && (forall i :: 0 <= i < |o.issued| - 1 ==> db(o.issued[i]).Some?)
      && o.result == Answers(db, o.issued)
  {
    match db(relevance)
    case None =>
      assert [relevance][1..] == [];
    case Some(tier1) =>
      var excluded := Exclusion(tier1);
      var q2 := Substring(words, excluded, categoryId, storeId);
      var q3 := Substring(halves, excluded, categoryId, storeId);
      assert [relevance][1..] == [];
      assert tier1 + [] == tier1;
      if |tier1| <= Threshold {
        assert [relevance, q2][1..] == [q2] && [q2][1..] == [];
        assert [relevance, q2, q3][1..] == [q2, q3] && [q2, q3][1..] == [q3] && [q3][1..] == [];
        match db(q2)
        case None =>
        case Some(tier2) =>
          assert tier2 + [] == tier2;
          assert Answers(db, [q2]) == Some(tier2);
          match db(q3)
          case None =>
            assert Answers(db, [q3]) == None;
            assert Answers(db, [q2, q3]) == None;
          case Some(tier3) =>
            assert Answers(db, [q3]) == Some(tier3 + []) && tier3 + [] == tier3;
            assert Answers(db, [q2, q3]) == Some(tier2 + tier3);
            assert tier1 + (tier2 + tier3) == tier1 + tier2 + tier3;
      }
  }

  /** More than five full-text rows: they are the result and no substring query is issued. */
  lemma RelevanceSuffices(db: Storage, relevance: Query, words: LikeClause, halves: LikeClause,
                          storeId: int, categoryId: int)
    requires db(relevance).Some? && |db(relevance).value| > Threshold
    ensures Escalate(db, relevance, words, halves, storeId, categoryId)
         == Outcome(Some(db(relevance).value), [relevance])
  {
  }

  /**
   * Which tiers run. The substring tier runs exactly when the full-text tier
   * succeeds with at most five rows; the fragment tier runs exactly when, in
   * addition, the substring tier succeeds and the two together have at most
   * five. Both substring queries exclude the same ids, those of the tier-1
   * rows alone (or 0), so tier-2 rows are not excluded from tier 3.
   */
  lemma TiersRun(db: Storage, relevance: Query, words: LikeClause, halves: LikeClause,
                 storeId: int, categoryId: int)
    ensures var o := Escalate(db, relevance, words, halves, storeId, categoryId);
      var first := db(relevance);
      && (|o.issued| >= 2 <==> first.Some? && |first.value| <= Threshold)
      && (|o.issued| >= 2 ==>
            o.issued[1] == Substring(words, Exclusion(first.value), categoryId, storeId))
      && (|o.issued| == 3 <==>
            && |o.issued| >= 2
            && var second := db(o.issued[1]);
               second.Some? && |first.value| + |second.value| <= Threshold)
      && (|o.issued| == 3 ==>
            o.issued[2] == Substring(halves, o.issued[1].excluded, categoryId, storeId))
  {
  }

  /** Every issued query is scoped to the requested store and category. */
  lemma QueriesScoped(db: Storage, storeId: int, categoryId: int, search: string)
    ensures var o := Search(db, storeId, categoryId, search);
      forall i :: 0 <= i < |o.issued| ==> o.issued[i].storeId == storeId && o.issued[i].categoryId == categoryId
  {
    var tokens := Tokens(search);
    var words, halves := Clause(tokens), Clause(Fragments(tokens));
    var q1 := RelevanceQuery(storeId, categoryId, search);
    match db(q1)
    case None =>
    case Some(tier1) =>
      var q2 := Substring(words, Exclusion(tier1), categoryId, storeId);
      var q3 := Substring(halves, Exclusion(tier1), categoryId, storeId);
      assert q2.storeId == storeId && q2.categoryId == categoryId;
      assert q3.storeId == storeId && q3.categoryId == categoryId;
  }

  /** A storage that never returns a row whose id a substring query excludes. */
  ghost predicate HonoursExclusion(db: Storage) {
    forall q: Query :: q.Substring? && db(q).Some? ==>
      forall p :: p in db(q).value ==> p.id !in q.excluded
  }

  /** With such a storage, no row after the tier-1 rows repeats a tier-1 id. */
  lemma LaterTiersAvoidTier1(db: Storage, relevance: Query, words: LikeClause, halves: LikeClause,
                             storeId: int, categoryId: int)
    requires HonoursExclusion(db)
    ensures var o := Escalate(db, relevance, words, halves, storeId, categoryId);
      var first := db(relevance);
      o.result.Some? ==>
        && first.Some?
        && o.result.value[..|first.value|] == first.value
        && forall i :: |first.value| <= i < |o.result.value| ==> o.result.value[i].id !in Ids(first.value)
  {
    match db(relevance)
    case None =>
    case Some(tier1) =>
      if |tier1| <= Threshold {
        var excluded := Exclusion(tier1);
        assert forall id :: id in Ids(tier1) ==> id in excluded;
        var q2 := Substring(words, excluded, categoryId, storeId);
        var q3 := Substring(halves, excluded, categoryId, storeId);
        match db(q2)
        case None =>
        case Some(tier2) =>
          assert forall p :: p in tier2 ==> p.id !in excluded;
          if |tier1| + |tier2| > Threshold {
            var r := tier1 + tier2;
            assert r[..|tier1|] == tier1;
            assert forall i :: |tier1| <= i < |r| ==> r[i] in tier2;
          } else {
            match db(q3)
            case None =>
            case Some(tier3) =>
              assert forall p :: p in tier3 ==> p.id !in excluded;
              var r := tier1 + tier2 + tier3;
              assert r[..|tier1|] == tier1;
              assert forall i :: |tier1| <= i < |r| ==> r[i] in tier2 || r[i] in tier3;
          }
      }
  }

  /**
   * Even with such a storage a product can be returned twice: a row found by
   * tier 2 is not excluded from tier 3.
   */
  lemma FragmentTierMayRepeatRows()
    ensures exists db: Storage ::
      && HonoursExclusion(db)
      && var r := Search(db, 1, 1, "ab").result;
         r.Some? && |r.value| == 2 && r.value[0].id == r.value[1].id
  {
    var p := Product(7, "", "", "", 1);
    var db: Storage := (q: Query) => if q.Relevance? || 7 in q.excluded then Some([]) else Some([p]);
    var tokens := Tokens("ab");
    var words, halves := Clause(tokens), Clause(Fragments(tokens));
    var q1 := RelevanceQuery(1, 1, "ab");
    var q2 := Substring(words, [0], 1, 1);
    var q3 := Substring(halves, [0], 1, 1);
    assert db(q1) == Some([]);
    assert Exclusion([]) == [0];
    assert db(q2) == Some([p]);
    assert db(q3) == Some([p]);
    assert Search(db, 1, 1, "ab") == Outcome(Some([] + [p] + [p]), [q1, q2, q3]);
    assert [] + [p] + [p] == [p, p];
    assert HonoursExclusion(db);
  }
  /**
   * A trailing space adds an empty token, whose tier-2 placeholder is bound to
   * `%%`, a pattern every name matches.
   */
  lemma TrailingSpaceMatchesAll(search: string)
    ensures var tokens := Tokens(search + " ");
      && |tokens| == |Tokens(search)| + 1
      && Placeholder(|Tokens(search)|) in Clause(tokens).replacements
      && Clause(tokens).replacements[Placeholder(|Tokens(search)|)] == "%%"
  {
    SplitTrailingSeparator(search, ' ');
    var tokens := Tokens(search + " ");
    ReplacementsBind(tokens, |Tokens(search)|);
    assert tokens[|Tokens(search)|] == "";
  }
}
