/** The shared result type of validators and the helper that builds a failure from the catalog. */
module Validation {
  import opened Wrappers
  import opened Messages

  /** What a validator returns: success, or the message describing the failure. */
  type ValidationResult = Result<(), Message>

  /**
    `handle`: success when `err` is false; otherwise a failure whose text
    is the catalog template for `key` (empty when the key is unknown) and
    whose arguments are `args`.
   */
  function Handle(err: bool, key: string, args: seq<string>): (r: ValidationResult)
    ensures !err <==> r == Ok(())
    ensures r.Err? ==> r.error.args == args
    ensures r.Err? ==> forall i :: 0 <= i < |Catalog| && Catalog[i].0 == key ==> r.error.text == Catalog[i].1
    ensures r.Err? && (forall i :: 0 <= i < |Catalog| ==> Catalog[i].0 != key) ==> r.error.text == ""
  {
    if err then
      CatalogDistinct();
      forall i | 0 <= i < |Catalog| && Catalog[i].0 == key {
        FindDistinct(Catalog, i);
      }
      Err(Message(Find(Catalog, key).GetOr(""), args))
    else
      Ok(())
  }
}
