/**
 * The checks an expense form applies before anything is stored: the first
 * entries of the category and vendor lists are prompts, not choices, the
 * amount must be positive and the description non-empty. The checks run in
 * that order and the first one that fails is reported.
 */
module ExpenseForm {
  import opened Text

  const CategoryPrompt: string := "Select Category"
  const VendorPrompt: string := "Select Vendor"

  datatype InputError = NoCategory | NoVendor | BadAmount | NoDescription

  /**
   * The first failing check, or `None` when the input may be stored. Amounts
   * are whole currency units.
   */
  function FirstInputError(category: string, vendor: string, amount: int, description: string): (r: Option<InputError>)
    ensures r.None? <==> category != CategoryPrompt && vendor != VendorPrompt && amount > 0 && description != ""
  {
    if category == CategoryPrompt then Some(NoCategory)
    else if vendor == VendorPrompt then Some(NoVendor)
    else if amount <= 0 then Some(BadAmount)
    else if description == "" then Some(NoDescription)
    else None
  }

  /** A failing check hides every later one: the reported error depends only on the earlier fields. */
  lemma InputErrorOrder(category: string, vendor: string, amount: int, description: string)
    ensures category == CategoryPrompt ==> FirstInputError(category, vendor, amount, description) == Some(NoCategory)
    ensures category != CategoryPrompt && vendor == VendorPrompt ==>
              FirstInputError(category, vendor, amount, description) == Some(NoVendor)
    ensures category != CategoryPrompt && vendor != VendorPrompt && amount <= 0 ==>
              FirstInputError(category, vendor, amount, description) == Some(BadAmount)
  {
  }

  /** `_validate_expense_input` of the single-form portal: true exactly when no check fails. */
  predicate ValidInput(category: string, vendor: string, amount: int, description: string) {
    FirstInputError(category, vendor, amount, description).None?
  }
}
