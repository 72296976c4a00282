/**
 * The product table as the search sees it, and the SELECT-list builder of
 * `findByCategoryAndChildren`.
 */
module Products {

  import opened Text

  /**
   * One row returned by a search query. The price columns are computed by
   * the database from floating-point discount data and are not modelled.
   */
  datatype Product = Product(id: nat, image: string, name: string, description: string, categoryId: nat)

  /** The ids of the rows, in row order. */
  function Ids(rows: seq<Product>): (ids: seq<nat>)
    ensures |ids| == |rows|
    ensures forall i :: 0 <= i < |rows| ==> ids[i] == rows[i].id
  {
    seq(|rows|, i requires 0 <= i < |rows| => rows[i].id)
  }

  /** The attributes declared for the products table, in declaration order. */
  const Columns: seq<string> :=
    ["id", "image", "name", "categoryId", "description", "storeId",
     "stockQuantity", "unitPrice", "discountId", "recommended", "createdAt"]

  lemma ColumnsHaveNoComma()
    ensures forall a :: a in Columns ==> ',' !in a
  {
  }

  /** The requested attributes that are known columns, in request order. */
  function KnownAttributes(attributes: seq<string>): (known: seq<string>)
    ensures |known| <= |attributes|
    ensures forall a :: a in known <==> a in attributes && a in Columns
  {
    if attributes == [] then []
    else (if attributes[0] in Columns then [attributes[0]] else []) + KnownAttributes(attributes[1..])
  }

  /** Filtering distributes over concatenation, so request order is kept. */
  lemma {:induction false} KnownAttributesAppend(a: seq<string>, b: seq<string>)
    ensures KnownAttributes(a + b) == KnownAttributes(a) + KnownAttributes(b)
  {
    if a == [] {
      assert a + b == b;
    } else {
      assert (a + b)[0] == a[0];
      assert (a + b)[1..] == a[1..] + b;
      KnownAttributesAppend(a[1..], b);
    }
  }

  /** Each attribute prefixed with the `p.` table alias. */
  function Qualified(attributes: seq<string>): (r: seq<string>)
    ensures |r| == |attributes|
    ensures forall i :: 0 <= i < |r| ==> r[i] == "p." + attributes[i]
  {
    seq(|attributes|, i requires 0 <= i < |attributes| => "p." + attributes[i])
  }

  /**
   * The SELECT list: `p.*` unless some requested attribute is a known column,
   * otherwise the known ones, qualified, joined with `,`. An absent attribute
   * list behaves as an empty one.
   */
  function SelectClause(attributes: seq<string>): string {
    var included := KnownAttributes(attributes);
    if |included| > 0 then Join(Qualified(included), ",") else "p.*"
  }

  /** When some requested attribute is known, the clause lists exactly the known ones. */
  lemma SelectClauseLists(attributes: seq<string>)
    requires exists a :: a in attributes && a in Columns
    ensures Split(SelectClause(attributes), ',') == Qualified(KnownAttributes(attributes))
  {
    var included := KnownAttributes(attributes);
    var clause := Qualified(included);
    ColumnsHaveNoComma();
    forall i | 0 <= i < |clause| ensures ',' !in clause[i] {
      assert included[i] in Columns;
      assert clause[i] == "p." + included[i];
    }
    assert [','] == ",";
    SplitJoin(clause, ',');
  }

  /** The clause is `p.*` exactly when no requested attribute is a known column. */
  lemma SelectClauseDefault(attributes: seq<string>)
    ensures SelectClause(attributes) == "p.*" <==> forall a :: a in attributes ==> a !in Columns
  {
    var included := KnownAttributes(attributes);
    if |included| > 0 {
      assert included[0] in attributes && included[0] in Columns;
      SelectClauseLists(attributes);
      SplitJoin(["p.*"], ',');
      assert ("p." + included[0])[2..] == included[0] != "*";
      assert Qualified(included)[0] != "p.*";
      assert Split(SelectClause(attributes), ',') != Split("p.*", ',');
    }
  }
}
