/**
 * The keyword document classifier: two independent predicates, each true when
 * some keyword of a fixed list occurs in the lower-cased text.
 */
module Validators {
  import opened Text

  const PurchaseOrderKeywords: seq<string> := ["purchase order", "po number", "vendor", "quantity"]
  const InvoiceKeywords: seq<string> := ["invoice", "invoice number", "tax", "total amount"]

  /** `any(k.lower() in text.lower() for k in keywords)`. */
  function AnyKeywordIn(keywords: seq<string>, text: string): (b: bool)
    ensures b <==> exists j :: 0 <= j < |keywords| && Contains(Lower(text), Lower(keywords[j]))
  {
    if keywords == [] then false
    else Contains(Lower(text), Lower(keywords[0])) || AnyKeywordIn(keywords[1..], text)
  }

  /** For a list of four keywords the `any` is a four-way disjunction. */
  lemma AnyOfFour(keywords: seq<string>, text: string)
    requires |keywords| == 4
    ensures AnyKeywordIn(keywords, text) <==>
      || Contains(Lower(text), Lower(keywords[0])) || Contains(Lower(text), Lower(keywords[1]))
      || Contains(Lower(text), Lower(keywords[2])) || Contains(Lower(text), Lower(keywords[3]))
  {
    if AnyKeywordIn(keywords, text) {
      var j :| 0 <= j < |keywords| && Contains(Lower(text), Lower(keywords[j]));
      assert j == 0 || j == 1 || j == 2 || j == 3;
    }
  }

  /** Every keyword is already lower case, so `k.lower()` is `k`. */
  lemma KeywordsAreLowerCase()
    ensures forall j :: 0 <= j < |PurchaseOrderKeywords| ==> Lower(PurchaseOrderKeywords[j]) == PurchaseOrderKeywords[j]
    ensures forall j :: 0 <= j < |InvoiceKeywords| ==> Lower(InvoiceKeywords[j]) == InvoiceKeywords[j]
  {
    forall j | 0 <= j < |PurchaseOrderKeywords| ensures Lower(PurchaseOrderKeywords[j]) == PurchaseOrderKeywords[j] {
      LowerOfLowerCase(PurchaseOrderKeywords[j]);
    }
    forall j | 0 <= j < |InvoiceKeywords| ensures Lower(InvoiceKeywords[j]) == InvoiceKeywords[j] {
      LowerOfLowerCase(InvoiceKeywords[j]);
    }
  }

  /** `is_purchase_order(text)`. */
  function IsPurchaseOrder(text: string): (b: bool)
    ensures b <==> || Contains(Lower(text), "purchase order") || Contains(Lower(text), "po number")
                   || Contains(Lower(text), "vendor") || Contains(Lower(text), "quantity")
  {
    KeywordsAreLowerCase();
    AnyOfFour(PurchaseOrderKeywords, text);
    AnyKeywordIn(PurchaseOrderKeywords, text)
  }

  /** `is_invoice(text)`. */
  function IsInvoice(text: string): (b: bool)
    ensures b <==> || Contains(Lower(text), "invoice") || Contains(Lower(text), "invoice number")
                   || Contains(Lower(text), "tax") || Contains(Lower(text), "total amount")
  {
    KeywordsAreLowerCase();
    AnyOfFour(InvoiceKeywords, text);
    AnyKeywordIn(InvoiceKeywords, text)
  }

  /** Changing the case of any letters of the text changes neither verdict. */
  lemma ClassifierIgnoresCase(t: string, u: string)
    requires SameUpToCase(t, u)
    ensures IsPurchaseOrder(t) == IsPurchaseOrder(u)
    ensures IsInvoice(t) == IsInvoice(u)
  {
    assert Lower(t) == Lower(u);
  }

  /** A text shorter than every keyword, the empty text among them, is classified as neither. */
  lemma ShortTextIsNeither(t: string)
    requires |t| < 3
    ensures !IsPurchaseOrder(t) && !IsInvoice(t)
  {
    var l := Lower(t);
    LongerNotContained(l, "purchase order");
    LongerNotContained(l, "po number");
    LongerNotContained(l, "vendor");
    LongerNotContained(l, "quantity");
    LongerNotContained(l, "invoice");
    LongerNotContained(l, "invoice number");
    LongerNotContained(l, "tax");
    LongerNotContained(l, "total amount");
  }

  /** A keyword found in the lower-cased text is found in the lower-cased text of any enclosing text. */
  lemma KeywordInEnclosingText(t: string, u: string, k: string)
    requires Contains(u, t) && Contains(Lower(t), k)
    ensures Contains(Lower(u), k)
  {
    var i :| OccursAt(u, t, i);
    var j :| OccursAt(Lower(t), k, j);
    OccursLower(u, t, i);
    OccursTransitive(Lower(u), Lower(t), k, i, j);
  }

  /** Both predicates are monotone: a text containing a positively classified text is classified positively. */
  lemma ClassifierMonotone(t: string, u: string)
    requires Contains(u, t)
    ensures IsPurchaseOrder(t) ==> IsPurchaseOrder(u)
    ensures IsInvoice(t) ==> IsInvoice(u)
  {
    var keywords := PurchaseOrderKeywords + InvoiceKeywords;
    forall j | 0 <= j < |keywords| && Contains(Lower(t), keywords[j]) ensures Contains(Lower(u), keywords[j]) {
      KeywordInEnclosingText(t, u, keywords[j]);
    }
    assert keywords[0] == "purchase order" && keywords[1] == "po number" && keywords[2] == "vendor";
    assert keywords[3] == "quantity" && keywords[4] == "invoice" && keywords[5] == "invoice number";
    assert keywords[6] == "tax" && keywords[7] == "total amount";
  }

  /** "invoice number" adds nothing: any text containing it contains "invoice". */
  lemma InvoiceNumberKeywordRedundant(t: string)
    ensures IsInvoice(t) <==>
      Contains(Lower(t), "invoice") || Contains(Lower(t), "tax") || Contains(Lower(t), "total amount")
  {
    if Contains(Lower(t), "invoice number") {
      var i :| OccursAt(Lower(t), "invoice number", i);
      assert OccursAt("invoice number", "invoice", 0);
      OccursTransitive(Lower(t), "invoice number", "invoice", i, 0);
    }
  }

  /**
   * The gates are independent. A text that mentions "Vendor" but has no letter that lower-cases to
   * 'i' or 't' (so none of "invoice", "tax", "total amount") is a purchase order and not an invoice.
   */
  lemma PurchaseOrderWithoutInvoiceWords(t: string)
    requires Contains(t, "Vendor")
    requires forall c :: c in t ==> LowerChar(c) != 'i' && LowerChar(c) != 't'
    ensures IsPurchaseOrder(t) && !IsInvoice(t)
  {
    ContainsLower(t, "Vendor");
    LowerOfCapitalized("Vendor");
    assert Lower("Vendor") == "vendor" by {
      assert LowerChar('V') == 'v';
      assert "Vendor"[1..] == "endor";
    }
    AbsentLetterNotContained(t, "invoice", 'i');
    AbsentLetterNotContained(t, "invoice number", 'i');
    AbsentLetterNotContained(t, "tax", 't');
    AbsentLetterNotContained(t, "total amount", 't');
  }

  lemma PurchaseOrderOnlyExample(t: string)
    requires t == "Purchase Order Vendor: Acme"
    ensures IsPurchaseOrder(t) && !IsInvoice(t)
  {
    assert OccursAt(t, "Vendor", 15);
    PurchaseOrderWithoutInvoiceWords(t);
  }

  /** A text containing both "vendor" and "tax" passes both gates: they are not a partition. */
  lemma VendorAndTaxPassBothGates(t: string)
    requires Contains(t, "vendor") && Contains(t, "tax")
    ensures IsPurchaseOrder(t) && IsInvoice(t)
  {
    ContainsLower(t, "vendor");
    LowerOfLowerCase("vendor");
    ContainsLower(t, "tax");
    LowerOfLowerCase("tax");
  }
}
