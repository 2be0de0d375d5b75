/**
 * `ProductCreateDTO` and the data-annotation checks model binding runs on it
 * before `CreateProductAsync` sees it.
 */
module ProductDto {
  import opened Wrappers
  import Text

  /** The request body; the price is a whole number of cents. */
  datatype ProductCreate = ProductCreate(name: Option<string>, description: Option<string>, price: int, quantity: int)

  const MaxNameLength: nat := 100
  const MaxDescriptionLength: nat := 500
  const MaxQuantity: int := 1000

  /**
   * The contract a valid request meets, stated directly. The limits count
   * UTF-16 units, so a valid name has at most 100 characters, fewer when some
   * lie outside the BMP.
   */
  predicate ValidProductCreate(dto: ProductCreate): (b: bool)
    ensures b ==> dto.name.Some? && |dto.name.value| <= MaxNameLength
    ensures b && dto.description.Some? ==> |dto.description.value| <= MaxDescriptionLength
  {
    && dto.name.Some? && !Text.IsBlank(dto.name.value) && Text.Utf16Length(dto.name.value) <= MaxNameLength
    && (dto.description.Some? ==> Text.Utf16Length(dto.description.value) <= MaxDescriptionLength)
    && dto.price >= 0
    && 0 <= dto.quantity <= MaxQuantity
  }

  const NameRequired: string := "The Name field is required."
  const NameTooLong: string := "Product name cannot exceed 100 characters."
  const DescriptionTooLong: string := "Description cannot exceed 500 characters."
  const PriceNegative: string := "Price must be a positive value."
  const QuantityOutOfRange: string := "Quantiy must be a positive value between 0 and 1000."

  /** The five annotation messages, in property order. */
  const Messages: seq<string> := [NameRequired, NameTooLong, DescriptionTooLong, PriceNegative, QuantityOutOfRange]

  /** The message of one annotation: present exactly when its check fails. */
  function Report(failed: bool, message: string): (es: seq<string>)
    ensures |es| <= 1
    ensures es == [] <==> !failed
    ensures forall m :: m in es <==> failed && m == message
  {
    if failed then [message] else []
  }

  /**
   * The messages the annotations produce, property by property: `[Required]`
   * on the name (null, empty or blank), `[StringLength]` on the name and the
   * description (an absent value passes), `[Range]` on price and quantity.
   */
  function Errors(dto: ProductCreate): (es: seq<string>)
    ensures |es| <= 5
    ensures forall m :: m in es ==> m in Messages
  {
    Report(dto.name.None? || Text.IsBlank(dto.name.value), NameRequired)
    + Report(dto.name.Some? && Text.Utf16Length(dto.name.value) > MaxNameLength, NameTooLong)
    + Report(dto.description.Some? && Text.Utf16Length(dto.description.value) > MaxDescriptionLength, DescriptionTooLong)
    + Report(dto.price < 0, PriceNegative)
    + Report(dto.quantity < 0 || dto.quantity > MaxQuantity, QuantityOutOfRange)
  }

  /** The model state is valid exactly when the request meets the contract. */
  lemma ErrorsEmptyIffValid(dto: ProductCreate)
    ensures Errors(dto) == [] <==> ValidProductCreate(dto)
  {
  }

  /** No two annotations share a message, so each message names the one check that failed. */
  lemma MessagesDistinct()
    ensures forall i, j :: 0 <= i < j < |Messages| ==> Messages[i] != Messages[j]
  {
    var lengths := [27, 42, 41, 31, 52];
    assert forall i :: 0 <= i < |Messages| ==> |Messages[i]| == lengths[i];
  }

  /** Each bound is reported by its own message. */
  lemma ErrorMessages(dto: ProductCreate)
    ensures dto.price < 0 <==> PriceNegative in Errors(dto)
    ensures (dto.quantity < 0 || dto.quantity > MaxQuantity) <==> QuantityOutOfRange in Errors(dto)
    ensures (dto.name.None? || Text.IsBlank(dto.name.value)) <==> NameRequired in Errors(dto)
    ensures (dto.name.Some? && Text.Utf16Length(dto.name.value) > MaxNameLength) <==> NameTooLong in Errors(dto)
    ensures (dto.description.Some? && Text.Utf16Length(dto.description.value) > MaxDescriptionLength)
      <==> DescriptionTooLong in Errors(dto)
  {
    MessagesDistinct();
  }

  /** The boundary values are accepted: an empty description, a free product, 0 and 1000 items. */
  lemma BoundsInclusive(name: string)
    requires !Text.IsBlank(name) && |name| <= MaxNameLength
    requires forall i :: 0 <= i < |name| ==> name[i] as int < 0x10000
    ensures ValidProductCreate(ProductCreate(Some(name), Some(""), 0, 0))
    ensures ValidProductCreate(ProductCreate(Some(name), None, 0, MaxQuantity))
    ensures !ValidProductCreate(ProductCreate(Some(name), None, -1, 0))
    ensures !ValidProductCreate(ProductCreate(Some(name), None, 0, MaxQuantity + 1))
  {
  }
}
