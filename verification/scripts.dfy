/**
 * The two scripts as instances of the shared transform:
 * `streamlit_app.py` (identifier `sku` or `mpn` through `col_map`,
 * per-column defaults) and `test.py` (identifier `mpn` through
 * `headers.index`, the constant "test", ordinals 1 and 2 passed over).
 */
module Scripts {
  import opened Cells
  import opened Headers
  import opened ColumnMaps
  import opened Rows
  import opened Normalizer

  /** `TARGET_COLUMNS` of streamlit_app.py. */
  const TargetColumns: seq<string> := [
    "Vendor Code", "description", "ebay_description", "exclude_from_sitemap",
    "free_shipping", "installation_warranty_sku", "manage_stock",
    "manufacturer_status", "meta_description", "meta_keyword", "meta_title",
    "msrp_display_actual_price_type", "msrp_enabled", "options_container",
    "order_volume", "price", "product.attribute_set", "product.type",
    "product.websites", "short_description", "sku_prefix", "status",
    "stock.qty", "tax_class_id", "visibility", "condition", "supplier_lead_time"
  ]

  /** `DEFAULT_VALUES` of streamlit_app.py. */
  const DefaultValues: map<string, string> := map[
    "free_shipping" := "1",
    "msrp_display_actual_price_type" := "Use config",
    "tax_class_id" := "Taxable Goods",
    "status" := "Enabled",
    "condition" := "New",
    "manufacturer_status" := "Active Product",
    "order_volume" := "Normal",
    "product.websites" := "base",
    "exclude_from_sitemap" := "No",
    "visibility" := "Catalog, Search",
    "supplier_lead_time" := "Ships Within 2-3 Business Days",
    "options_container" := "Product Info Column",
    "stock.qty" := "0",
    "product.type" := "simple"
  ]

  /** `AUTO_FILL_COLUMNS` of test.py. */
  const AutoFillColumns: seq<string> := [
    "free_shipping", "msrp_enabled", "msrp_display_actual_price_type",
    "tax_class_id", "status", "condition", "manufacturer",
    "manufacturer_status", "order_volume", "product.websites",
    "exclude_from_sitemap", "manage_stock", "installation_warranty_sku",
    "visibility", "supplier_lead_time", "options_container",
    "product.attribute_set", "stock.qty", "product.type", "category.name"
  ]

  const StreamlitApp: Config :=
    Config(["sku", "mpn"], LastInExtended, TargetColumns, Defaults(DefaultValues), 0)

  const TestScript: Config :=
    Config(["mpn"], FirstInOriginal, AutoFillColumns, Constant("test"), 2)

  // streamlit_app.py

  /** The upload is rejected exactly when the header as read has neither a
      `sku` nor an `mpn` column. */
  lemma StreamlitRejects(s: Sheet)
    ensures Normalize(StreamlitApp, s).Err? <==> Str("sku") !in s.header && Str("mpn") !in s.header
  {
    var ids := StreamlitApp.ids;
    assert |ids| == 2 && ids[0] == "sku" && ids[1] == "mpn";
    assert (forall k :: 0 <= k < |ids| ==> Str(ids[k]) !in s.header)
       <==> Str(ids[0]) !in s.header && Str(ids[1]) !in s.header;
  }

  /** streamlit_app.py's identifiers are `sku` and `mpn`, and neither is a
      target column. */
  lemma StreamlitIdsAreNotTargets()
    ensures "sku" !in TargetColumns && "mpn" !in TargetColumns
  {
  }

  /** A row counts as identified exactly when the last `sku` column or the
      last `mpn` column of the header as read holds a truthy value: neither
      name is a target, so extension leaves their `col_map` entries alone. */
  lemma StreamlitIdentified(header: seq<Cell>, row: seq<Cell>)
    ensures Present(StreamlitApp, header, row) <==>
      || (Str("sku") in header && Truthy(CellAt(row, Column(header, Str("sku")))))
      || (Str("mpn") in header && Truthy(CellAt(row, Column(header, Str("mpn")))))
  {
    StreamlitIdsAreNotTargets();
    assert |StreamlitApp.ids| == 2 && StreamlitApp.ids[0] == "sku" && StreamlitApp.ids[1] == "mpn";
    IdColumnIsLastOriginal(StreamlitApp, header, "sku");
    IdColumnIsLastOriginal(StreamlitApp, header, "mpn");
    PresentOfTwo(StreamlitApp, header, row);
  }

  /** In an identified row every target column's cell (at `col_map[col]`)
      holds `DEFAULT_VALUES.get(col, "")`, whatever it held before. */
  lemma StreamlitFillsDefaults(s: Sheet, i: int)
    requires Normalize(StreamlitApp, s).Ok? && 0 <= i < |s.rows|
    requires Present(StreamlitApp, HeaderRead(s), s.rows[i])
    ensures var out := Normalize(StreamlitApp, s).value;
      forall col :: col in TargetColumns ==>
        Str(col) in out.header &&
        Column(out.header, Str(col)) < |out.rows[i]| &&
        out.rows[i][Column(out.header, Str(col))] == Str(if col in DefaultValues then DefaultValues[col] else "")
  {
    FilledRowTargets(StreamlitApp, s, i);
  }

  /** An unidentified row keeps every value. */
  lemma StreamlitKeepsUnidentified(s: Sheet, i: int)
    requires Normalize(StreamlitApp, s).Ok? && 0 <= i < |s.rows|
    requires !Present(StreamlitApp, HeaderRead(s), s.rows[i])
    ensures var out := Normalize(StreamlitApp, s).value;
      forall j :: 0 <= j < |out.rows[i]| ==> out.rows[i][j] == CellAt(s.rows[i], j)
  {
    UntouchedRow(StreamlitApp, s, i);
  }

  // test.py

  /** test.py's identifier `mpn` is not an auto-fill column. */
  lemma TestIdIsNotTarget()
    ensures "mpn" !in AutoFillColumns
  {
  }

  /** The upload is rejected exactly when the header as read has no `mpn`
      column. */
  lemma TestRejects(s: Sheet)
    ensures Normalize(TestScript, s).Err? <==> Str("mpn") !in s.header
  {
    assert |TestScript.ids| == 1 && TestScript.ids[0] == "mpn";
  }

  /** A row counts as identified exactly when the first `mpn` column of the
      header as read holds a truthy value. */
  lemma TestIdentified(header: seq<Cell>, row: seq<Cell>)
    ensures Present(TestScript, header, row) <==>
      Str("mpn") in header && Truthy(CellAt(row, FirstIndex(header, Str("mpn"))))
  {
    IdentifiedByFirstColumn(TestScript, header, row);
  }

  /** In an identified row every auto-fill column at an ordinal above 2
      holds "test". */
  lemma TestFillsConstant(s: Sheet, i: int)
    requires Normalize(TestScript, s).Ok? && 0 <= i < |s.rows|
    requires Present(TestScript, HeaderRead(s), s.rows[i])
    ensures var out := Normalize(TestScript, s).value;
      forall col :: col in AutoFillColumns ==>
        (Str(col) in out.header &&
         (Column(out.header, Str(col)) + 1 > 2 ==>
            Column(out.header, Str(col)) < |out.rows[i]| &&
            out.rows[i][Column(out.header, Str(col))] == Str("test")))
  {
    FilledRowTargets(TestScript, s, i);
  }

  /** The cells at ordinals 1 and 2 are never modified, even in columns that
      are auto-fill targets. */
  lemma TestKeepsLeadingColumns(s: Sheet, i: int, j: int)
    requires Normalize(TestScript, s).Ok? && 0 <= i < |s.rows|
    requires 0 <= j < 2 && j < |Normalize(TestScript, s).value.rows[i]|
    ensures Normalize(TestScript, s).value.rows[i][j] == CellAt(s.rows[i], j)
  {
    KeptColumns(TestScript, s, i, j);
  }

  /** A column whose header names no auto-fill column keeps its value in
      every row; the `mpn` column is one of them. */
  lemma TestKeepsOtherColumns(s: Sheet, i: int, j: int)
    requires Normalize(TestScript, s).Ok? && 0 <= i < |s.rows|
    requires var out := Normalize(TestScript, s).value;
      0 <= j < |out.rows[i]| && out.header[j] !in (set col | col in AutoFillColumns :: Str(col))
    ensures Normalize(TestScript, s).value.rows[i][j] == CellAt(s.rows[i], j)
  {
    KeptColumns(TestScript, s, i, j);
  }

  /** A sheet whose only header cell is `mpn` and whose data row has three
      cells: the third cell is kept, and the auto-fill columns start at
      ordinal 4. */
  lemma TestWideRowExample()
    ensures var s := Sheet([Str("mpn")], [[Str("M1"), Str("x"), Str("y")]]);
      && Normalize(TestScript, s).Ok?
      && Normalize(TestScript, s).value.header[..3] == [Str("mpn"), Blank, Blank]
      && Normalize(TestScript, s).value.rows[0][2] == Str("y")
  {
    var s := Sheet([Str("mpn")], [[Str("M1"), Str("x"), Str("y")]]);
    TestRejects(s);
    KeepsBeyondStoredHeader(TestScript, s, 0, 2);
  }

  /** The `mpn` cell itself is never modified. */
  lemma TestKeepsMpn(s: Sheet, i: int)
    requires Normalize(TestScript, s).Ok? && 0 <= i < |s.rows|
    ensures var out := Normalize(TestScript, s).value; var k := FirstIndex(HeaderRead(s), Str("mpn"));
      k < |out.rows[i]| && out.rows[i][k] == CellAt(s.rows[i], k)
  {
    TestRejects(s);
    TestIdIsNotTarget();
    var h0 := HeaderRead(s);
    var out := Normalize(TestScript, s).value;
    var k := FirstIndex(h0, Str("mpn"));
    assert out.header[..|h0|][k] == Str("mpn");
    TestKeepsOtherColumns(s, i, k);
  }
}
