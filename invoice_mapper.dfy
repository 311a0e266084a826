/** The purchase-invoice mapper: every spreadsheet row, a plain object keyed by header text,
    becomes one purchase invoice with a fixed document type, date, cost centre, product code,
    tax and payment method, and with the supplier, invoice number and amounts taken from the row. */
module InvoiceMapper {
  import opened Text

  /** A JavaScript value as a row's cell can hold it. Numbers are integers here
      (amounts in the smallest currency unit). */
  datatype JsValue = Undefined | Null | Bool(b: bool) | Num(n: int) | NaN | Str(s: string)

  /** A spreadsheet row: header text to cell value. */
  type Row = map<string, JsValue>

  const DocumentTypeId := 5341
  const MockProduct := "PROD0001"
  const CostCenter := 286
  const InvoiceDate := "2025-11-17"
  const IvaTaxId := 2866
  const IvaPercent := 19
  const PaymentMethodId := 1225

  datatype Tax = Tax(id: int, name: string, percent: int, base: JsValue, value: JsValue)

  datatype Item = Item(kind: string, code: string, quantity: int, price: JsValue, discount: int, taxes: seq<Tax>)

  datatype Payment = Payment(id: int, value: JsValue, dueDate: string)

  datatype Invoice = Invoice(
    documentId: int,
    date: string,
    supplierIdentification: JsValue,
    costCenter: int,
    prefix: JsValue,
    number: JsValue,
    observations: string,
    items: seq<Item>,
    payments: seq<Payment>)

  /** `excelRow[name]`: undefined when the row has no such header. */
  function Field(row: Row, name: string): JsValue {
    if name in row then row[name] else Undefined
  }

  /** JavaScript truthiness: undefined, null, false, 0, NaN and "" are falsy. */
  predicate Truthy(v: JsValue) {
    match v
    case Undefined => false
    case Null => false
    case Bool(b) => b
    case Num(n) => n != 0
    case NaN => false
    case Str(s) => s != ""
  }

  /** `${v}` in a template literal. */
  function TemplateText(v: JsValue): string {
    match v
    case Undefined => "undefined"
    case Null => "null"
    case Bool(b) => if b then "true" else "false"
    case Num(n) => IntToString(n)
    case NaN => "NaN"
    case Str(s) => s
  }

  function DigitsValue(s: string): nat
    requires forall i :: 0 <= i < |s| ==> '0' <= s[i] <= '9'
  {
    if s == "" then 0 else 10 * DigitsValue(s[..|s| - 1]) + (s[|s| - 1] as int - '0' as int)
  }

  predicate AllDigits(s: string) {
    s != "" && forall i :: 0 <= i < |s| ==> '0' <= s[i] <= '9'
  }

  /** `Number(s)` for the strings this model reads as numbers: the empty string is 0, and an
      optionally signed run of decimal digits is that integer; anything else is NaN. */
  function StringToNumber(s: string): JsValue {
    if s == "" then Num(0)
    else if AllDigits(s) then Num(DigitsValue(s))
    else if (s[0] == '-' || s[0] == '+') && AllDigits(s[1..]) then
      Num(if s[0] == '-' then -(DigitsValue(s[1..]) as int) else DigitsValue(s[1..]))
    else NaN
  }

  /** The numeric conversion the `-` operator applies to each operand. */
  function ToNumber(v: JsValue): (r: JsValue)
    ensures r.Num? || r.NaN?
    ensures v.Num? ==> r == v
  {
    match v
    case Undefined => NaN
    case Null => Num(0)
    case Bool(b) => Num(if b then 1 else 0)
    case Num(n) => Num(n)
    case NaN => NaN
    case Str(s) => StringToNumber(s)
  }

  /** `a - b` */
  function Subtract(a: JsValue, b: JsValue): JsValue {
    var x, y := ToNumber(a), ToNumber(b);
    if x.Num? && y.Num? then Num(x.n - y.n) else NaN
  }

  /** `buildItems`: one product line priced at the row's total, taxed with 19% IVA. */
  function BuildItems(row: Row): seq<Item> {
    var total, iva := Field(row, " Total "), Field(row, " IVA ");
    [Item("Product", MockProduct, 1, total, 0,
          [Tax(IvaTaxId, "IVA", IvaPercent, Subtract(total, iva), iva)])]
  }

  /** `buildPayments`: one payment of the row's total, due on the invoice date. */
  function BuildPayments(row: Row): seq<Payment> {
    [Payment(PaymentMethodId, Field(row, " Total "), InvoiceDate)]
  }

  /** `mapExcelRowToInvoice` */
  function MapRow(row: Row): Invoice {
    Invoice(
      DocumentTypeId,
      InvoiceDate,
      Field(row, "NIT Emisor"),
      CostCenter,
      if Truthy(Field(row, "Prefijo")) then Field(row, "Prefijo") else Str("NA"),
      Field(row, "Folio"),
      "CUFE: " + TemplateText(Field(row, "CUFE/CUDE")),
      BuildItems(row),
      BuildPayments(row))
  }

  /** Whatever the row holds, an invoice carries the fixed document type, date and cost
      centre; its supplier, number and observations come from the row; its prefix is never
      falsy; it has one item and one payment, the payment equal to the item's price and due
      on the invoice date. */
  lemma MapRowFields(row: Row)
    ensures var inv := MapRow(row);
      && inv.documentId == 5341 && inv.costCenter == 286 && inv.date == "2025-11-17"
      && inv.supplierIdentification == Field(row, "NIT Emisor")
      && inv.number == Field(row, "Folio")
      && inv.prefix == (if Truthy(Field(row, "Prefijo")) then Field(row, "Prefijo") else Str("NA"))
      && Truthy(inv.prefix)
      && inv.observations[..6] == "CUFE: " && inv.observations[6..] == TemplateText(Field(row, "CUFE/CUDE"))
      && |inv.items| == 1 && |inv.payments| == 1
      && inv.items[0].code == "PROD0001" && inv.items[0].quantity == 1 && inv.items[0].discount == 0
      && inv.items[0].price == Field(row, " Total ")
      && inv.payments[0].id == 1225
      && inv.payments[0].value == inv.items[0].price
      && inv.payments[0].dueDate == inv.date
  {
  }

  /** The single tax line is 19% IVA with id 2866 and the row's IVA as value. When the total
      and the IVA are numbers, its base is their difference, so base plus value is the price;
      when the total is missing, the base is NaN. */
  lemma TaxLine(row: Row)
    ensures var item := MapRow(row).items[0];
      && |item.taxes| == 1
      && item.taxes[0].id == 2866 && item.taxes[0].percent == 19 && item.taxes[0].name == "IVA"
      && item.taxes[0].value == Field(row, " IVA ")
      && (item.price.Num? && item.taxes[0].value.Num? ==>
            item.taxes[0].base.Num? && item.taxes[0].base.n + item.taxes[0].value.n == item.price.n)
      && (" Total " !in row ==> item.taxes[0].base == NaN)
  {
  }

  /** A total given as digit text is subtracted as the number it spells. */
  lemma TextAmounts(row: Row, total: nat, iva: nat)
    requires Field(row, " Total ") == Str(IntToString(total)) && Field(row, " IVA ") == Num(iva)
    ensures MapRow(row).items[0].taxes[0].base == Num(total - iva)
  {
    NatToStringValue(total);
  }

  /** Reading back the decimal rendering of a natural number gives the number. */
  lemma {:induction false} NatToStringValue(n: nat)
    ensures AllDigits(NatToString(n)) && DigitsValue(NatToString(n)) == n
  {
    if n >= 10 {
      NatToStringValue(n / 10);
      var s := NatToString(n);
      assert s[..|s| - 1] == NatToString(n / 10);
    }
  }

  /** `mapExcelDataToInvoices`: one invoice per row, in row order. */
  function MapRows(rows: seq<Row>): (invoices: seq<Invoice>)
    ensures |invoices| == |rows|
    ensures forall i :: 0 <= i < |rows| ==> invoices[i] == MapRow(rows[i])
  {
    if rows == [] then [] else [MapRow(rows[0])] + MapRows(rows[1..])
  }
}
