/** The records the analyzer works on (ProductListAnalyzer/Models/Article.cs). */
module Models {

  /** An optional value, standing for a nullable reference field. */
  datatype Option<+T> = None | Some(value: T)

  /**
   * The price of an article. The source stores it as a `double` and only
   * ever compares it with `==`; every finite double is a real number and two
   * finite doubles are `==` exactly when their real values are equal, so a
   * `real` keeps that comparison (NaN and the infinities are not modelled).
   */
  type Price = real

  /**
   * One purchasable article variant. Only `price` and `pricePerUnitText`
   * influence the analysis; the other fields are carried along unchanged.
   */
  datatype Article = Article(
    id: int,
    shortDescription: Option<string>,
    price: Price,
    unit: string,
    pricePerUnitText: string,
    image: Option<string>
  )
}
