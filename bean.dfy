/**
 * The records the samples store: the generated `StockPart` bean of the VSAM samples
 * and the `TsqRecord` bean of the TSQ samples, as values with named fields.
 */
module Bean {

  /** The PART-ID field holds eight decimal digits. */
  const PART_ID_LIMIT: int := 100_000_000

  type PartId = x: int | 0 <= x < PART_ID_LIMIT

  /**
   * A stock part. Order dates are instants in milliseconds since 1 January 1970;
   * the unit price is in hundredths.
   */
  datatype StockPart = StockPart(
    partId: PartId,
    supplier: int,
    lastOrderDate: int,
    nextOrderDate: int,
    stockQuantity: int,
    unitPriceHundredths: int,
    description: string)

  /** A freshly constructed `StockPart`: every field at its initial value. */
  const NEW_STOCK_PART: StockPart := StockPart(0, 0, 0, 0, 0, 0, "")

  /** The record the TSQ samples write, read and rewrite. */
  datatype TsqRecord = TsqRecord(
    recordId: int,
    binaryDigit: int,
    characterString: string,
    numericValue: int,
    packedDecimal: int,
    signedPacked: int)
}
