/**
 * StockPartHelper: random but valid stock parts for the VSAM samples, and the
 * eight-byte keys that identify them in the KSDS.
 *
 * The random number generator is replaced by parameters (`Draws`,
 * `DescriptionChoice`) whose ranges are the ones the helper asks the generator for.
 */
module StockPartHelper {
  import opened Bean
  import opened BigEndian
  import opened Text

  // ---------------------------------------------------------------- time constants

  const MS_PER_DAY: int := 86_400_000

  /** Milliseconds from 1 January 1970 to 1 January 2010. */
  const JANUARY_1ST_2010: int := 1262304000000

  /** Milliseconds from 1 January 2010 to 1 January 2020. */
  const TEN_YEARS: int := 315532800000

  /** Milliseconds in eight weeks. */
  const EIGHT_WEEKS: int := 4838400000

  /** The constants measured in days: 14610 days from 1970 to 2010, of which ten are leap days. */
  lemma TimeConstantsInDays()
    ensures JANUARY_1ST_2010 == (40 * 365 + 10) * MS_PER_DAY
    ensures TEN_YEARS == (10 * 365 + 2) * MS_PER_DAY
    ensures EIGHT_WEEKS == 8 * 7 * MS_PER_DAY
  {
  }

  // ---------------------------------------------------------------- descriptions

  const SIZE: seq<string> := ["Tiny", "Small", "Medium", "Large", "Extra large", "Huge"]
  const COLOUR: seq<string> := ["blue", "red", "orange", "green", "yellow", "white", "black", "purple"]
  const SHAPE: seq<string> := ["round", "square", "oval", "flat"]
  const MATERIAL: seq<string> := ["plastic", "metal", "card"]
  const NOUN: seq<string> := ["widget", "thing", "plug", "nut", "bit", "part", "panel"]

  /** The documented maximum length of the words in each list, and of a description. */
  const SIZE_MAX: nat := 11
  const COLOUR_MAX: nat := 6
  const SHAPE_MAX: nat := 6
  const MATERIAL_MAX: nat := 7
  const NOUN_MAX: nat := 6
  const DESCRIPTION_MAX: nat := 40

  /** The index drawn from each word list. */
  datatype DescriptionChoice = DescriptionChoice(size: nat, colour: nat, shape: nat, material: nat, noun: nat)

  predicate ValidChoice(c: DescriptionChoice) {
    c.size < |SIZE| && c.colour < |COLOUR| && c.shape < |SHAPE| && c.material < |MATERIAL| && c.noun < |NOUN|
  }

  /** The chosen words: three adjectives and a material, finishing with a noun. */
  function Words(c: DescriptionChoice): (words: seq<string>)
    requires ValidChoice(c)
  {
    [SIZE[c.size], COLOUR[c.colour], SHAPE[c.shape], MATERIAL[c.material], NOUN[c.noun]]
  }

  /** Every word in each list respects its list's documented maximum length. */
  lemma ChosenWordsWithinMaxima(c: DescriptionChoice)
    requires ValidChoice(c)
    ensures |SIZE[c.size]| <= SIZE_MAX && |COLOUR[c.colour]| <= COLOUR_MAX && |SHAPE[c.shape]| <= SHAPE_MAX
    ensures |MATERIAL[c.material]| <= MATERIAL_MAX && |NOUN[c.noun]| <= NOUN_MAX
  {
  }

  lemma JoinFive(words: seq<string>)
    requires |words| == 5
    ensures Join(words) == words[0] + " " + words[1] + " " + words[2] + " " + words[3] + " " + words[4]
  {
    assert Join(words[4..]) == words[4];
    assert Join(words[3..]) == words[3] + " " + Join(words[4..]);
    assert Join(words[2..]) == words[2] + " " + Join(words[3..]);
    assert Join(words[1..]) == words[1] + " " + Join(words[2..]);
  }

  /** generateDescription: appends the chosen words to a buffer, one space between each. */
  method GenerateDescription(c: DescriptionChoice) returns (description: string)
    requires ValidChoice(c)
    ensures description == Join(Words(c))
    ensures |description| <= DESCRIPTION_MAX
  {
    var sb: string := [];
    sb := sb + SIZE[c.size];
    assert sb == SIZE[c.size];
    sb := sb + " ";
    sb := sb + COLOUR[c.colour];
    sb := sb + " ";
    sb := sb + SHAPE[c.shape];
    sb := sb + " ";
    sb := sb + MATERIAL[c.material];
    sb := sb + " ";
    sb := sb + NOUN[c.noun];
    ChosenWordsWithinMaxima(c);
    JoinFive(Words(c));
    description := sb;
  }

  // ---------------------------------------------------------------- generated parts

  /** The values generate() draws, each from the range it asks the generator for. */
  datatype Draws = Draws(
    partId: int,
    supplier: int,
    lastOrderOffset: int,
    description: DescriptionChoice,
    stockQuantity: int,
    priceHundredths: int)

  predicate ValidDraws(d: Draws) {
    && 1 <= d.partId < 100_000_00
    && 1 <= d.supplier < 100_000_000
    && 0 <= d.lastOrderOffset < TEN_YEARS
    && ValidChoice(d.description)
    && 0 <= d.stockQuantity < 10_000
    && 100 <= d.priceHundredths < 10_000
  }

  /** generate: a new part whose fields are set one by one from the draws. */
  method Generate(d: Draws) returns (sp: StockPart)
    requires ValidDraws(d)
    ensures 1 <= sp.partId < 10_000_000
    ensures 1 <= sp.supplier < 100_000_000
    ensures JANUARY_1ST_2010 <= sp.lastOrderDate < JANUARY_1ST_2010 + TEN_YEARS
    ensures sp.nextOrderDate == sp.lastOrderDate + EIGHT_WEEKS
    ensures sp.description == Join(Words(d.description))
    ensures |sp.description| <= DESCRIPTION_MAX
    ensures 0 <= sp.stockQuantity < 10_000
    ensures 100 <= sp.unitPriceHundredths < 10_000
  {
    sp := NEW_STOCK_PART;
    sp := sp.(partId := d.partId);
    sp := sp.(supplier := d.supplier);
    var lastOrderDate := JANUARY_1ST_2010 + d.lastOrderOffset;
    sp := sp.(lastOrderDate := lastOrderDate);
    var nextOrderDate := lastOrderDate + EIGHT_WEEKS;
    sp := sp.(nextOrderDate := nextOrderDate);
    var description := GenerateDescription(d.description);
    sp := sp.(description := description);
    sp := sp.(stockQuantity := d.stockQuantity);
    sp := sp.(unitPriceHundredths := d.priceHundredths);
  }

  // ---------------------------------------------------------------- keys

  /** The KSDS key is the leading eight bytes of the record: the PART-ID field. */
  const KEY_LENGTH: nat := 8

  /** The EBCDIC zone of a zoned-decimal digit: digit d is the byte 0xF0 + d. */
  const ZONE: int := 0xF0

  function Pow10(n: nat): (p: nat)
    ensures p > 0
  {
    if n == 0 then 1 else 10 * Pow10(n - 1)
  }

  /** n as `digits` zoned-decimal digits, most significant first (a PIC 9(digits) field). */
  function Zoned(n: nat, digits: nat): (bs: seq<byte>)
    requires n < Pow10(digits)
    ensures |bs| == digits
  {
    if digits == 0 then [] else Zoned(n / 10, digits - 1) + [ZONE + n % 10]
  }

  /** Every byte of a zoned field is a digit: 0xF0 to 0xF9. */
  lemma {:induction false} ZonedDigits(n: nat, digits: nat)
    requires n < Pow10(digits)
    ensures forall i :: 0 <= i < digits ==> ZONE <= Zoned(n, digits)[i] <= ZONE + 9
  {
    if digits > 0 {
      ZonedDigits(n / 10, digits - 1);
      var bs := Zoned(n, digits);
      assert forall i :: 0 <= i < digits - 1 ==> bs[i] == Zoned(n / 10, digits - 1)[i];
    }
  }

  /** Zoned fields of the same width order as their values do. */
  lemma {:induction false} ZonedMonotone(a: nat, b: nat, digits: nat)
    requires a < b < Pow10(digits)
    ensures FromBytes(Zoned(a, digits)) < FromBytes(Zoned(b, digits))
  {
    var za, zb := Zoned(a, digits), Zoned(b, digits);
    assert za[..digits - 1] == Zoned(a / 10, digits - 1);
    assert zb[..digits - 1] == Zoned(b / 10, digits - 1);
    if a / 10 < b / 10 {
      ZonedMonotone(a / 10, b / 10, digits - 1);
    }
  }

  /** getKey(StockPart): a copy of the record's first eight bytes. */
  function GetKey(sp: StockPart): (key: seq<byte>)
    ensures |key| == KEY_LENGTH
  {
    assert Pow10(KEY_LENGTH) == PART_ID_LIMIT;
    Zoned(sp.partId, KEY_LENGTH)
  }

  /** getKey(int): the key of a new part with the given PART-ID. */
  function GetKeyOf(partId: PartId): (key: seq<byte>)
    ensures |key| == KEY_LENGTH
  {
    GetKey(NEW_STOCK_PART.(partId := partId))
  }

  /** getKeyZero: the key of PART-ID zero. */
  function GetKeyZero(): (key: seq<byte>)
    ensures key == GetKeyOf(0) && |key| == KEY_LENGTH
    ensures forall partId: PartId :: FromBytes(key) <= FromBytes(GetKeyOf(partId))
  {
    KeyZeroIsLeast();
    GetKeyOf(0)
  }

  /** generateKey: the key of a PART-ID drawn from 0 <= n < 100,000,000. */
  function GenerateKey(draw: PartId): (key: seq<byte>)
    ensures |key| == KEY_LENGTH
    ensures forall i :: 0 <= i < KEY_LENGTH ==> ZONE <= key[i] <= ZONE + 9
  {
    assert Pow10(KEY_LENGTH) == PART_ID_LIMIT;
    ZonedDigits(draw, KEY_LENGTH);
    GetKeyOf(draw)
  }

  /** Key order is PART-ID order. */
  lemma KeyOrder(a: PartId, b: PartId)
    ensures a < b <==> FromBytes(GetKeyOf(a)) < FromBytes(GetKeyOf(b))
    ensures a == b <==> FromBytes(GetKeyOf(a)) == FromBytes(GetKeyOf(b))
    ensures a == b <==> GetKeyOf(a) == GetKeyOf(b)
  {
    assert Pow10(KEY_LENGTH) == PART_ID_LIMIT;
    if a < b {
      ZonedMonotone(a, b, KEY_LENGTH);
    } else if b < a {
      ZonedMonotone(b, a, KEY_LENGTH);
    }
  }

  /** Two parts have the same key exactly when they have the same PART-ID, whatever their other fields. */
  lemma KeyIdentifiesPart(x: StockPart, y: StockPart)
    ensures GetKey(x) == GetKey(y) <==> x.partId == y.partId
    ensures GetKey(x) == GetKeyOf(x.partId)
  {
    KeyOrder(x.partId, y.partId);
  }

  lemma KeyZeroIsLeast()
    ensures forall partId: PartId :: FromBytes(GetKeyOf(0)) <= FromBytes(GetKeyOf(partId))
  {
    forall partId: PartId
      ensures FromBytes(GetKeyOf(0)) <= FromBytes(GetKeyOf(partId))
    {
      KeyOrder(0, partId);
    }
  }
}
