/** The checks addProduct makes on the three form fields before it builds the
    POST request: the trimmed name and the date must be non-empty, and the
    quantity text must parse (parseInt, base 10) to a positive integer. */
module Validation {
  import opened Text

  /** The body of the request addProduct sends. */
  datatype AddRequest = AddRequest(name: string, date: string, quantity: int)

  /** The two alerts addProduct can raise instead of sending. */
  datatype Rejection =
    | MissingNameOrDate  // "Preencha nome e data."
    | InvalidQuantity    // "Quantidade inválida."

  datatype Outcome = Accepted(request: AddRequest) | Rejected(reason: Rejection)

  function ValidateAdd(nameField: string, dateField: string, quantityField: string): Outcome {
    var name := Trim(nameField);
    var quantity := ParseInt(quantityField);
    if name == [] || dateField == [] then Rejected(MissingNameOrDate)
    else if quantity.None? || quantity.value <= 0 then Rejected(InvalidQuantity)
    else Accepted(AddRequest(name, dateField, quantity.value))
  }

  /** A request is built exactly when all three checks pass; a failed name or
      date check is reported before the quantity is looked at. */
  lemma ValidateAddDecides(nameField: string, dateField: string, quantityField: string)
    ensures ValidateAdd(nameField, dateField, quantityField).Accepted?
        <==> Trim(nameField) != [] && dateField != []
             && ParseInt(quantityField).Some? && ParseInt(quantityField).value > 0
    ensures Trim(nameField) == [] || dateField == []
        ==> ValidateAdd(nameField, dateField, quantityField) == Rejected(MissingNameOrDate)
    ensures IsBlank(nameField) ==> ValidateAdd(nameField, dateField, quantityField) == Rejected(MissingNameOrDate)
  {
    TrimEmptyIffBlank(nameField);
  }

  /** What an accepted request carries: a non-empty name with no white space
      around it, the date exactly as typed, and a positive quantity read from
      the quantity field. */
  lemma AcceptedRequest(nameField: string, dateField: string, quantityField: string)
    requires ValidateAdd(nameField, dateField, quantityField).Accepted?
    ensures var r := ValidateAdd(nameField, dateField, quantityField).request;
      && r.name != [] && !IsWhitespace(r.name[0]) && !IsWhitespace(r.name[|r.name| - 1])
      && (exists i :: TrimmedAt(nameField, r.name, i))
      && r.date == dateField
      && r.quantity > 0 && ParseInt(quantityField) == Some(r.quantity)
  {
  }

  /** Every product with a name that needs no trimming, a date and a positive
      quantity can be entered by typing its fields. */
  lemma ValidateAddAcceptsItem(name: string, date: string, quantity: int)
    requires name != [] && !IsWhitespace(name[0]) && !IsWhitespace(name[|name| - 1])
    requires date != [] && quantity > 0
    ensures ValidateAdd(name, date, DecimalString(quantity)) == Accepted(AddRequest(name, date, quantity))
  {
    assert TrimStart(name) == name;
    assert TrimEnd(name) == name;
    ParseIntDecimalString(quantity, []);
    assert DecimalString(quantity) + [] == DecimalString(quantity);
  }

  /** Since parseInt stops at the first non-digit, a quantity such as "2.5" or
      "3 boxes" passes the integer check with its leading integer. */
  lemma ValidateAddTruncates(name: string, date: string, quantity: int, rest: string)
    requires Trim(name) != [] && date != [] && quantity > 0
    requires rest != [] && !IsDigit(rest[0])
    ensures ValidateAdd(name, date, DecimalString(quantity) + rest) == Accepted(AddRequest(Trim(name), date, quantity))
  {
    ParseIntDecimalString(quantity, rest);
  }

  /** Zero and negative quantities are refused. */
  lemma ValidateAddRefusesNonPositive(name: string, date: string, quantity: int)
    requires Trim(name) != [] && date != [] && quantity <= 0
    ensures ValidateAdd(name, date, DecimalString(quantity)) == Rejected(InvalidQuantity)
  {
    ParseIntDecimalString(quantity, []);
    assert DecimalString(quantity) + [] == DecimalString(quantity);
  }
}
