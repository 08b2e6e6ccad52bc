/**
 * `read_pdf` as a whole: the table rows become `line_items`, the page texts
 * are joined into `raw_text`, and three dict displays of `find` calls pull
 * the metadata, tax and total fields out of `raw_text`. The tables and the
 * page texts are what camelot and pdfplumber return for the uploaded file;
 * the model takes them as inputs.
 */
module PdfLoader {
  import opened Wrappers
  import opened Text
  import opened Dicts
  import opened Validators
  import opened TableRecords
  import opened PageText
  import opened FieldMatch

  /** A field name and the pattern its `find` call is given. */
  type Rule = (string, Pattern)

  /** A dict of field names to `find` results (`None` where the pattern does not match). */
  type Fields = Dict<string, Option<string>>

  // The patterns, in the shape Label Gap \s* (Tail).
  const PoNumber := Pattern("Purchase Order Number:", NoGap, Rest)
  const PoDate := Pattern("Date:", NoGap, Rest)
  const DeliveryDate := Pattern("Delivery/Completion Date:", NoGap, Rest)
  const PaymentTerms := Pattern("Payment Terms:", NoGap, Rest)
  const VendorName := Pattern("Vendor:", NoGap, SkipLineThenRest("Vendor No:"))
  const VendorGstin := Pattern("Vendor:", GreedyToLabel("GSTIN No.:"), Rest)
  const Sgst := Pattern("SGST", LazyToColon, Amount)
  const Cgst := Pattern("CGST", LazyToColon, Amount)
  const TotalTax := Pattern("Total Tax:", NoGap, Amount)
  const TotalValue := Pattern("Total Purchase Value", LazyToColon, Amount)
  const AmountInWords := Pattern("Amount in Words:", NoGap, Rest)

  const MetadataRules: seq<Rule> := [
    ("po_number", PoNumber),
    ("po_date", PoDate),
    ("delivery_date", DeliveryDate),
    ("payment_terms", PaymentTerms),
    ("vendor_name", VendorName),
    ("vendor_gstin", VendorGstin)
  ]

  const TaxRules: seq<Rule> := [("sgst", Sgst), ("cgst", Cgst), ("total_tax", TotalTax)]

  const TotalsRules: seq<Rule> := [("total_value", TotalValue), ("amount_in_words", AmountInWords)]

  /** The dict display `{name: find(pattern), ...}` over `text`. */
  function Extract(rules: seq<Rule>, text: string): Fields
  {
    FromPairs(seq(|rules|, i requires 0 <= i < |rules| => (rules[i].0, Find(rules[i].1, text))))
  }

  /** The structured output of `read_pdf`: a dict with exactly these five keys. */
  datatype Document = Document(
    rawText: string,
    lineItems: seq<Record>,
    metadata: Fields,
    taxes: Fields,
    totals: Fields)

  /** What `read_pdf` returns for the given tables and page texts, or the error the table loop raises. */
  function Load(tables: seq<Table>, pages: seq<Option<string>>): Result<Document, LoadError>
  {
    match LineItems(tables)
    case Failure(e) => Failure(e)
    case Success(items) =>
      var raw := RawText(pages);
      Success(Document(raw, items, Extract(MetadataRules, raw), Extract(TaxRules, raw), Extract(TotalsRules, raw)))
  }

  /** `read_pdf`: the table loop, then the page loop, then the three dicts of fields. */
  method ReadPdf(tables: seq<Table>, pages: seq<Option<string>>) returns (r: Result<Document, LoadError>)
    ensures r == Load(tables, pages)
  {
    var items := CollectLineItems(tables);
    if items.Failure? {
      return Failure(items.error);
    }
    var fullText := CollectPageTexts(pages);
    var raw := Join(fullText);
    var metadata := Extract(MetadataRules, raw);
    var taxes := Extract(TaxRules, raw);
    var totals := Extract(TotalsRules, raw);
    r := Success(Document(raw, items.value, metadata, taxes, totals));
  }

  // ---------------------------------------------------------------------------
  // The dict displays
  // ---------------------------------------------------------------------------

  /** With distinct names, the display lists every rule once, in rule order, each with its own `find` over the same text. */
  lemma ExtractItems(rules: seq<Rule>, text: string)
    requires DistinctKeys(rules)
    ensures |Extract(rules, text)| == |rules|
    ensures forall i :: 0 <= i < |rules| ==> Extract(rules, text)[i] == (rules[i].0, Find(rules[i].1, text))
  {
    var ps := seq(|rules|, i requires 0 <= i < |rules| => (rules[i].0, Find(rules[i].1, text)));
    assert DistinctKeys(ps) by {
      forall i, j | 0 <= i < j < |ps| ensures ps[i].0 != ps[j].0 {
        assert ps[i].0 == rules[i].0 && ps[j].0 == rules[j].0;
      }
    }
    FromDistinctPairs(ps);
  }

  /** Looking a name up in the display gives its rule's `find` result, and only rule names are present. */
  lemma ExtractGet(rules: seq<Rule>, text: string, name: string)
    requires DistinctKeys(rules)
    ensures Get(Extract(rules, text), name).Some? <==> HasKey(rules, name)
    ensures forall i :: 0 <= i < |rules| && rules[i].0 == name ==> Get(Extract(rules, text), name) == Some(Find(rules[i].1, text))
  {
    ExtractItems(rules, text);
    var d := Extract(rules, text);
    if HasKey(rules, name) {
      var i :| 0 <= i < |rules| && rules[i].0 == name;
      assert d[i].0 == name;
    }
    if HasKey(d, name) {
      var i :| 0 <= i < |d| && d[i].0 == name;
      assert rules[i].0 == name;
    }
  }

  /** No two rules of a table share a name. */
  lemma RuleNamesDistinct()
    ensures DistinctKeys(MetadataRules) && DistinctKeys(TaxRules) && DistinctKeys(TotalsRules)
  {
  }

  /** The metadata dict has exactly six keys, in this order, each mapped to its own `find`. */
  lemma MetadataDisplay(text: string)
    ensures Extract(MetadataRules, text) == [
      ("po_number", Find(PoNumber, text)),
      ("po_date", Find(PoDate, text)),
      ("delivery_date", Find(DeliveryDate, text)),
      ("payment_terms", Find(PaymentTerms, text)),
      ("vendor_name", Find(VendorName, text)),
      ("vendor_gstin", Find(VendorGstin, text))]
  {
    RuleNamesDistinct();
    ExtractItems(MetadataRules, text);
    var d := Extract(MetadataRules, text);
    assert d[0] == ("po_number", Find(PoNumber, text));
    assert d[1] == ("po_date", Find(PoDate, text));
    assert d[2] == ("delivery_date", Find(DeliveryDate, text));
    assert d[3] == ("payment_terms", Find(PaymentTerms, text));
    assert d[4] == ("vendor_name", Find(VendorName, text));
    assert d[5] == ("vendor_gstin", Find(VendorGstin, text));
  }

  /** The tax dict has exactly three keys. */
  lemma TaxesDisplay(text: string)
    ensures Extract(TaxRules, text) == [("sgst", Find(Sgst, text)), ("cgst", Find(Cgst, text)), ("total_tax", Find(TotalTax, text))]
  {
    RuleNamesDistinct();
    ExtractItems(TaxRules, text);
  }

  /** The totals dict has exactly two keys. */
  lemma TotalsDisplay(text: string)
    ensures Extract(TotalsRules, text) == [("total_value", Find(TotalValue, text)), ("amount_in_words", Find(AmountInWords, text))]
  {
    RuleNamesDistinct();
    ExtractItems(TotalsRules, text);
  }

  /** Each field is computed on its own: listing the same rules in another order maps every name to the same value. */
  lemma ReorderedRules(rules: seq<Rule>, rules': seq<Rule>, text: string, name: string)
    requires DistinctKeys(rules) && DistinctKeys(rules')
    requires multiset(rules) == multiset(rules')
    ensures Get(Extract(rules, text), name) == Get(Extract(rules', text), name)
  {
    ExtractGet(rules, text, name);
    ExtractGet(rules', text, name);
    SameNames(rules, rules', name);
    SameNames(rules', rules, name);
    if HasKey(rules, name) {
      var i :| 0 <= i < |rules| && rules[i].0 == name;
      assert rules[i] in multiset(rules');
      var j :| 0 <= j < |rules'| && rules'[j] == rules[i];
    }
  }

  /** Rules that are a reordering of each other have the same names. */
  lemma SameNames(rules: seq<Rule>, rules': seq<Rule>, name: string)
    requires multiset(rules) == multiset(rules')
    ensures HasKey(rules, name) ==> HasKey(rules', name)
  {
    if HasKey(rules, name) {
      var i :| 0 <= i < |rules| && rules[i].0 == name;
      assert rules[i] in multiset(rules');
      var j :| 0 <= j < |rules'| && rules'[j] == rules[i];
    }
  }

  /** A value in a display is stripped; an amount rule yields an amount and any other rule a single line. */
  lemma ExtractShape(rules: seq<Rule>, text: string, i: nat, v: string)
    requires DistinctKeys(rules) && i < |rules|
    requires Get(Extract(rules, text), rules[i].0) == Some(Some(v))
    ensures IsTrimmed(v)
    ensures rules[i].1.tail.Amount? ==> IsAmount(v)
    ensures !rules[i].1.tail.Amount? ==> SingleLine(v)
  {
    ExtractGet(rules, text, rules[i].0);
    FindShape(rules[i].1, text);
  }

  /** Every tax and every total amount that is found is an amount. */
  lemma AmountFields(text: string, name: string, v: string)
    ensures Get(Extract(TaxRules, text), name) == Some(Some(v)) ==> IsAmount(v)
    ensures name != "amount_in_words" && Get(Extract(TotalsRules, text), name) == Some(Some(v)) ==> IsAmount(v)
  {
    RuleNamesDistinct();
    ExtractGet(TaxRules, text, name);
    ExtractGet(TotalsRules, text, name);
    if Get(Extract(TaxRules, text), name) == Some(Some(v)) {
      var i :| 0 <= i < |TaxRules| && TaxRules[i].0 == name;
      ExtractShape(TaxRules, text, i, v);
    }
    if name != "amount_in_words" && Get(Extract(TotalsRules, text), name) == Some(Some(v)) {
      var i :| 0 <= i < |TotalsRules| && TotalsRules[i].0 == name;
      ExtractShape(TotalsRules, text, i, v);
    }
  }

  // ---------------------------------------------------------------------------
  // The whole document
  // ---------------------------------------------------------------------------

  /**
   * `read_pdf` fails exactly when some table is empty or has a body row whose header
   * cell is not text; otherwise every row below a header is one clean record, the raw
   * text is empty only when no page has text, and the three dicts have 6, 3 and 2 keys.
   */
  lemma LoadDocument(tables: seq<Table>, pages: seq<Option<string>>)
    ensures Load(tables, pages).Success? <==> forall t :: 0 <= t < |tables| ==> TableLoads(tables[t])
    ensures Load(tables, pages).Success? ==>
      var doc := Load(tables, pages).value;
      && |doc.lineItems| == BodyRowCount(tables)
      && (forall k :: 0 <= k < |doc.lineItems| ==> IsCleanRecord(doc.lineItems[k]))
      && (doc.rawText == [] <==> forall i :: 0 <= i < |pages| ==> !Kept(pages[i]))
      && |doc.metadata| == 6 && |doc.taxes| == 3 && |doc.totals| == 2
  {
    LineItemsSucceed(tables);
    if LineItems(tables).Success? {
      LineItemsCount(tables);
      LineItemsAreClean(tables);
      RawTextEmpty(pages);
      var raw := RawText(pages);
      MetadataDisplay(raw);
      TaxesDisplay(raw);
      TotalsDisplay(raw);
    }
  }

  /** The `i`-th row below the header of table `t` becomes the record after those of the earlier tables. */
  lemma LoadRecordAt(tables: seq<Table>, pages: seq<Option<string>>, t: nat, i: nat)
    requires Load(tables, pages).Success?
    requires t < |tables| && 1 <= i < |tables[t]|
    ensures BodyRowCount(tables[..t]) + i - 1 < |Load(tables, pages).value.lineItems|
    ensures CleanRecord(tables[t][0], tables[t][i]) == Success(Load(tables, pages).value.lineItems[BodyRowCount(tables[..t]) + i - 1])
  {
    LineItemsAt(tables, t, i);
  }

  // ---------------------------------------------------------------------------
  // Fields and the classifier
  // ---------------------------------------------------------------------------

  /** The PO-number label, lower-cased, starts with the keyword "purchase order". */
  lemma PoNumberLabelHasKeyword()
    ensures OccursAt(Lower(PoNumber.prefix), "purchase order", 0)
  {
    var l := PoNumber.prefix;
    LowerSlice(l, 0, 9);
    LowerSlice(l, 9, 14);
    LowerOfCapitalized("Purchase ");
    LowerOfCapitalized("Order");
    assert Lower(l)[0..9] == "purchase " by {
      assert l[0..9] == "Purchase ";
      assert LowerChar('P') == 'p';
    }
    assert Lower(l)[9..14] == "order" by {
      assert l[9..14] == "Order";
      assert LowerChar('O') == 'o';
    }
    assert Lower(l)[0..14] == Lower(l)[0..9] + Lower(l)[9..14];
  }

  /** Both vendor patterns have the label "Vendor:", which lower-cased starts with the keyword "vendor". */
  lemma VendorLabelHasKeyword()
    ensures VendorGstin.prefix == VendorName.prefix
    ensures OccursAt(Lower(VendorName.prefix), "vendor", 0)
  {
    var l := VendorName.prefix;
    LowerOfCapitalized(l);
    assert Lower(l) == "vendor:" by {
      assert LowerChar('V') == 'v';
      assert l[1..] == "endor:";
    }
  }

  /** The total-tax label, lower-cased, holds the keyword "tax" at index 6. */
  lemma TotalTaxLabelHasKeyword()
    ensures OccursAt(Lower(TotalTax.prefix), "tax", 6)
  {
    var l := TotalTax.prefix;
    LowerSlice(l, 6, 9);
    LowerOfCapitalized("Tax");
    assert l[6..9] == "Tax";
    assert LowerChar('T') == 't';
  }

  /** A found PO number means the text mentions "purchase order", so it passes `is_purchase_order`. */
  lemma PoNumberMeansPurchaseOrder(text: string)
    requires Find(PoNumber, text).Some?
    ensures IsPurchaseOrder(text)
  {
    PoNumberLabelHasKeyword();
    FindMentions(PoNumber, text, "purchase order", 0);
  }

  /** Either vendor field found means the text mentions "vendor", so it passes `is_purchase_order`. */
  lemma VendorMeansPurchaseOrder(text: string)
    requires Find(VendorName, text).Some? || Find(VendorGstin, text).Some?
    ensures IsPurchaseOrder(text)
  {
    VendorLabelHasKeyword();
    if Find(VendorName, text).Some? {
      FindMentions(VendorName, text, "vendor", 0);
    } else {
      FindMentions(VendorGstin, text, "vendor", 0);
    }
  }

  /** A found total tax means the text mentions "tax", so it passes `is_invoice`. */
  lemma TotalTaxMeansInvoice(text: string)
    requires Find(TotalTax, text).Some?
    ensures IsInvoice(text)
  {
    TotalTaxLabelHasKeyword();
    FindMentions(TotalTax, text, "tax", 6);
  }

  // ---------------------------------------------------------------------------
  // "Date:" inside "Delivery/Completion Date:"
  // ---------------------------------------------------------------------------

  /** The PO-date pattern is the delivery-date pattern without the first 20 characters of its label. */
  lemma DateLabelIsSuffix()
    ensures LabelSuffix(DeliveryDate, PoDate, 20)
  {
    assert DeliveryDate.prefix[20..] == PoDate.prefix;
  }

  /** A document with a delivery date always has a PO date: "Date:" matches inside "Delivery/Completion Date:". */
  lemma DeliveryDateGivesPoDate(text: string)
    requires Find(DeliveryDate, text).Some?
    ensures Find(PoDate, text).Some?
  {
    DateLabelIsSuffix();
    SuffixFind(DeliveryDate, PoDate, 20, text);
  }

  /**
   * When no "Date:" match starts before the one inside a delivery-date label, the
   * PO date is the delivery date: `po_date` and `delivery_date` hold the same value.
   */
  lemma PoDateShadowedByDeliveryDate(text: string, i: nat)
    requires i <= |text| && MatchAt(DeliveryDate, text, i).Some?
    requires forall j :: 0 <= j < i + 20 ==> MatchAt(PoDate, text, j).None?
    ensures Find(PoDate, text) == Find(DeliveryDate, text)
  {
    DateLabelIsSuffix();
    SuffixFindShadow(DeliveryDate, PoDate, 20, text, i);
  }
}
