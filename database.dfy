/**
 * The MySQL database the Express back end talks to: one table per entity,
 * each with an AUTO_INCREMENT id. Rows keep the JavaScript values that were
 * bound into the INSERT; MySQL's column-type conversions are not modelled,
 * except where a query compares an INT column with a bound value and where
 * an INT column stores a bound id.
 */
module Database {
  import opened Wrappers
  import opened Js

  /** A statement the engine rejected (a constraint, a bad value, a lost connection). */
  datatype SqlError = SqlError

  datatype ProductRow = ProductRow(
    id: nat, name: Val, brand: Val, price: Val, originalPrice: Val,
    discountPercentage: Val, imageUrl: Val, categoryId: Val, promotion: Val,
    views: Val, createdAt: Val, updatedAt: Val)

  datatype CategoryRow = CategoryRow(id: nat, name: Val, description: Val, createdAt: int)

  datatype FavoriteRow = FavoriteRow(id: nat, userId: int, productId: int)

  datatype OrderRow = OrderRow(id: nat, userId: int, productId: int, quantity: Val)

  datatype CommentRow = CommentRow(id: nat, userId: int, productId: int, text: Val, date: int)

  /** What bcrypt stores: a digest of `plain` under `salt`; the plain text itself is never stored. */
  datatype Digest = Bcrypt(plain: string, salt: string)

  datatype UserRow = UserRow(id: nat, name: Val, email: Val, password: Digest, role: string)

  /** A JavaScript value bound to a `?` placeholder by mysql2's `query`: `undefined` binds as NULL. */
  function Bind(v: Val): Val {
    if v == Undefined then Null else v
  }

  // ------------------------------------------------------ numbers in SQL text

  /** The white space MySQL skips before a number: space, tab, newline, VT, FF, CR. */
  predicate IsSqlSpace(c: char) {
    c == ' ' || 9 <= c as int <= 13
  }

  /** `m` times ten to the power `e`, for an exponent of either sign. */
  function Scale(m: real, e: int): real
    decreases if e >= 0 then e else -e
  {
    if e == 0 then m
    else if e > 0 then Scale(m * 10.0, e - 1)
    else Scale(m / 10.0, e + 1)
  }

  /** The exponent `e[+-]digits` at the start of `s`; 0 when there is none (an `e` without digits is not one). */
  function ExponentOf(s: string): int {
    if s == [] || (s[0] != 'e' && s[0] != 'E') then 0
    else
      var t := s[1..];
      var signed := t != [] && (t[0] == '-' || t[0] == '+');
      var d := LeadingDigits(if signed then t[1..] else t);
      if d == [] then 0
      else if signed && t[0] == '-' then -(DigitsValue(d) as int)
      else DigitsValue(d)
  }

  /**
   * The decimal number at the start of `s` after white space: an optional
   * sign, digits, an optional point and digits, then an optional exponent.
   * None when there is no digit before or after the point.
   */
  function TextNumber(s: string): Option<real> {
    if s != [] && IsSqlSpace(s[0]) then TextNumber(s[1..])
    else if s != [] && s[0] == '-' then
      (match Whole(s[1..], []) case Some(x) => Some(-x) case None => None)
    else if s != [] && s[0] == '+' then Whole(s[1..], [])
    else Whole(s, [])
  }

  /** Reading the integer digits of a number; `read` holds those already read. */
  function Whole(s: string, read: string): Option<real>
    requires AllDigits(read)
  {
    if s != [] && IsDigit(s[0]) then Whole(s[1..], read + [s[0]])
    else if s != [] && s[0] == '.' then Fraction(s[1..], read, [])
    else if read == [] then None
    else Some(Scale(DigitsValue(read) as real, ExponentOf(s)))
  }

  /** Reading the digits after the point; `whole` holds the integer digits, `read` the fraction digits so far. */
  function Fraction(s: string, whole: string, read: string): Option<real>
    requires AllDigits(whole) && AllDigits(read)
  {
    if s != [] && IsDigit(s[0]) then Fraction(s[1..], whole, read + [s[0]])
    else if whole == [] && read == [] then None
    else Some(Scale(DigitsValue(whole) as real + Scale(DigitsValue(read) as real, -|read|), ExponentOf(s)))
  }

  /**
   * The number MySQL compares an INT column with, as a double: the number
   * itself, 1 or 0 for a boolean, and for a string the decimal number at its
   * start after white space, or 0 when none is there. NULL (null, undefined)
   * compares with nothing.
   */
  function SqlReal(v: Val): Option<real> {
    match v
    case Undefined => None
    case Null => None
    case Bool(b) => Some(if b then 1.0 else 0.0)
    case Num(n) => Some(n as real)
    case Str(s) => (match TextNumber(s) case Some(x) => Some(x) case None => Some(0.0))
  }

  /** `WHERE column = ?` on an INT column holding `n`, with the bound value `v`. */
  predicate SqlIdEquals(v: Val, n: int) {
    SqlReal(v) == Some(n as real)
  }

  /** A bound value that reads as a whole number. */
  predicate SqlWhole(v: Val) {
    SqlReal(v).Some? && SqlReal(v).value == SqlReal(v).value.Floor as real
  }

  /** Rounding to the nearest integer, halves away from zero. */
  function RoundHalfAway(x: real): int {
    if x >= 0.0 then (x + 0.5).Floor else -((0.5 - x).Floor)
  }

  /** The value an INT column stores for a bound value: its number, rounded; None is NULL. */
  function SqlInt(v: Val): Option<int> {
    match SqlReal(v)
    case None => None
    case Some(x) => Some(RoundHalfAway(x))
  }

  /** A whole number rounds to itself, and only a whole number equals an integer. */
  lemma RoundWhole(x: real, n: int)
    ensures x == n as real <==> x == x.Floor as real && RoundHalfAway(x) == n
  {
    var k := x.Floor;
    if x == k as real {
      if k >= 0 {
        assert (x + 0.5).Floor == k;
      } else {
        assert (0.5 - x).Floor == -k;
      }
    }
  }

  /**
   * A bound value selects the row holding `n` exactly when it is a whole
   * number stored as `n`: a value with a fraction selects no row at all,
   * even though an INSERT stores it rounded.
   */
  lemma SelectsIffWholeAndStored(v: Val, n: int)
    ensures SqlIdEquals(v, n) <==> SqlWhole(v) && SqlInt(v) == Some(n)
  {
    var x := SqlReal(v);
    if x.Some? {
      RoundWhole(x.value, n);
    }
  }

  /** Digits read to the end give the value of all the digits. */
  lemma {:induction false} WholeOfDigits(s: string, read: string)
    requires AllDigits(s) && AllDigits(read) && read + s != []
    ensures Whole(s, read) == Some(DigitsValue(read + s) as real)
  {
    if s == [] {
      assert read + s == read;
      assert ExponentOf(s) == 0;
    } else {
      assert IsDigit(s[0]);
      assert (read + [s[0]]) + s[1..] == read + s;
      WholeOfDigits(s[1..], read + [s[0]]);
    }
  }

  /** At the end of the text, the digits read so far make the number. */
  lemma FractionAtEnd(whole: string, read: string)
    requires AllDigits(whole) && AllDigits(read) && whole + read != []
    ensures Fraction([], whole, read) == Some(DigitsValue(whole) as real + Scale(DigitsValue(read) as real, -|read|))
  {
    assert ExponentOf([]) == 0;
  }

  lemma ReadsFive()
    ensures Fraction("5", "1", []) == Fraction([], "1", "5")
    ensures DigitsValue("1") == 1 && DigitsValue("5") == 5
  {
    assert "5"[1..] == [] && [] + ['5'] == "5";
  }

  lemma OneAndAHalfText()
    ensures TextNumber("1.5") == Some(1.5)
  {
    var s := "1.5";
    assert s[0] == '1' && s[1..] == ".5";
    assert TextNumber(s) == Whole(s, []);
    assert [] + [s[0]] == "1";
    assert Whole(s, []) == Whole(".5", "1");
    assert Whole(".5", "1") == Fraction("5", "1", []);
    ReadsFive();
    FractionAtEnd("1", "5");
    assert Scale(5.0, -1) == 0.5;
  }

  /** `1.5` reads as one and a half, which no id equals. */
  lemma SqlReadsFraction()
    ensures SqlReal(Str("1.5")) == Some(1.5)
    ensures forall n: int :: !SqlIdEquals(Str("1.5"), n)
  {
    OneAndAHalfText();
  }

  /** ` 1` skips its leading space and selects id 1. */
  lemma SqlSkipsSpace()
    ensures SqlIdEquals(Str(" 1"), 1)
  {
    assert TextNumber(" 1") == Whole("1", []);
    WholeOfDigits("1", []);
    assert [] + "1" == "1";
    assert DigitsValue("1") == 1;
  }

  lemma ExponentOne()
    ensures ExponentOf("e1") == 1 && Scale(1.0, 1) == 10.0
  {
    assert "e1"[1..] == "1";
    assert LeadingDigits("1") == "1";
    assert DigitsValue("1") == 1;
  }

  /** Where the integer digits stop without a point, they and the exponent make the number. */
  lemma WholeAtEnd(s: string, read: string)
    requires AllDigits(read) && read != []
    requires s == [] || (!IsDigit(s[0]) && s[0] != '.')
    ensures Whole(s, read) == Some(Scale(DigitsValue(read) as real, ExponentOf(s)))
  {
  }

  /** Text starting with a digit is read from its first character, with nothing read yet. */
  lemma DigitFirstText(s: string)
    requires s != [] && IsDigit(s[0])
    ensures TextNumber(s) == Whole(s, [])
  {
  }

  /** A digit is added to those already read. */
  lemma WholeTakesDigit(s: string, read: string)
    requires AllDigits(read) && s != [] && IsDigit(s[0])
    ensures Whole(s, read) == Whole(s[1..], read + [s[0]])
  {
  }

  lemma ReadsOneThenExponent()
    ensures TextNumber("1e1") == Whole("e1", "1")
    ensures DigitsValue("1") == 1
  {
    var s := "1e1";
    assert s[0] == '1' && s[1..] == "e1" && [] + [s[0]] == "1";
    DigitFirstText(s);
    WholeTakesDigit(s, []);
  }

  lemma OneEOneText()
    ensures TextNumber("1e1") == Some(10.0)
  {
    ReadsOneThenExponent();
    assert "e1"[0] == 'e';
    WholeAtEnd("e1", "1");
    ExponentOne();
  }

  /** `1e1` reads with its exponent: it selects id 10 and not id 1. */
  lemma SqlReadsExponent()
    ensures SqlIdEquals(Str("1e1"), 10) && !SqlIdEquals(Str("1e1"), 1)
  {
    OneEOneText();
  }

  /** The text MySQL keeps in a VARCHAR column for a bound value; None is NULL. */
  function SqlText(v: Val): Option<string> {
    match v
    case Undefined => None
    case Null => None
    case Bool(b) => Some(if b then "1" else "0")
    case Num(n) => Some(IntToString(n))
    case Str(s) => Some(s)
  }

  /**
   * `WHERE column = ?` on a text column; NULL equals nothing. A bound string
   * is compared as text; a bound number or boolean (written unquoted) makes
   * MySQL read the column's text as a number and compare the two as doubles.
   */
  predicate SqlTextEquals(column: Val, v: Val) {
    match v
    case Num(_) => SqlText(column).Some? && SqlReal(Str(SqlText(column).value)) == SqlReal(v)
    case Bool(_) => SqlText(column).Some? && SqlReal(Str(SqlText(column).value)) == SqlReal(v)
    case _ => SqlText(v).Some? && SqlText(column) == SqlText(v)
  }

  /** A printed integer reads back as that number. */
  lemma TextNumberOfInt(n: int)
    ensures TextNumber(IntToString(n)) == Some(n as real)
  {
    if n < 0 {
      TextNumberOfNegative(n);
    } else {
      TextNumberOfNat(n);
    }
  }

  lemma TextNumberOfNat(n: int)
    requires n >= 0
    ensures TextNumber(IntToString(n)) == Some(n as real)
  {
    var d := NatToString(n);
    assert IntToString(n) == d;
    TextNumberOfDigits(d);
    NatToStringRoundTrip(n);
  }

  lemma TextNumberOfNegative(n: int)
    requires n < 0
    ensures TextNumber(IntToString(n)) == Some(n as real)
  {
    MinusText(-n);
    NegativeIntText(n);
    NegatedReal(n);
  }

  lemma NegativeIntText(n: int)
    requires n < 0
    ensures IntToString(n) == "-" + NatToString(-n)
  {
  }

  lemma NegatedReal(n: int)
    requires n < 0
    ensures -((-n) as real) == n as real
  {
  }

  lemma MinusText(m: nat)
    ensures TextNumber("-" + NatToString(m)) == Some(-(m as real))
  {
    WholeOfNat(m);
    NegatedText(NatToString(m), m as real);
  }

  lemma WholeOfNat(m: nat)
    ensures Whole(NatToString(m), []) == Some(m as real)
  {
    var d := NatToString(m);
    WholeOfDigits(d, []);
    assert [] + d == d;
    NatToStringRoundTrip(m);
  }

  /** A leading minus negates what follows. */
  lemma NegatedText(d: string, x: real)
    requires Whole(d, []) == Some(x)
    ensures TextNumber("-" + d) == Some(-x)
  {
    var s := "-" + d;
    assert s[0] == '-' && s[1..] == d;
  }

  /** A column holding the very text a bound value is stored as is selected by that value. */
  lemma SameTextSelects(column: Val, v: Val)
    requires SqlText(v).Some? && SqlText(column) == SqlText(v)
    ensures SqlTextEquals(column, v)
  {
    match v
    case Num(n) =>
      TextNumberOfInt(n);
    case Bool(b) =>
      TextNumberOfInt(if b then 1 else 0);
      assert IntToString(1) == "1" && IntToString(0) == "0";
    case _ =>
  }

  /** Text with no leading number reads as 0. */
  lemma LetterTextReadsZero()
    ensures SqlReal(Str("alice@x.com")) == Some(0.0)
  {
    var s := "alice@x.com";
    assert s[0] == 'a' && !IsSqlSpace(s[0]) && !IsDigit(s[0]);
    assert TextNumber(s) == Whole(s, []);
  }

  lemma DigitThenLettersText()
    ensures SqlReal(Str("5abc")) == Some(5.0)
  {
    var s := "5abc";
    assert s[0] == '5' && s[1..] == "abc" && [] + [s[0]] == "5";
    DigitFirstText(s);
    WholeTakesDigit(s, []);
    assert "abc"[0] == 'a';
    WholeAtEnd("abc", "5");
    assert DigitsValue("5") == 5;
  }

  /** `'alice@x.com' = 0` and `'5abc' = 5` hold in MySQL, while `'5abc' = '5'` does not. */
  lemma NumberSelectsText()
    ensures SqlTextEquals(Str("alice@x.com"), Num(0))
    ensures SqlTextEquals(Str("5abc"), Num(5))
    ensures !SqlTextEquals(Str("5abc"), Str("5"))
  {
    LetterTextReadsZero();
    DigitThenLettersText();
  }

  /** A string of digits reads as its decimal value. */
  lemma TextNumberOfDigits(s: string)
    requires s != [] && AllDigits(s)
    ensures TextNumber(s) == Some(DigitsValue(s) as real)
  {
    assert IsDigit(s[0]);
    assert TextNumber(s) == Whole(s, []);
    WholeOfDigits(s, []);
    assert [] + s == s;
  }

  /** A route parameter holding the decimal id selects that id. */
  lemma RouteParamSelectsId(id: nat)
    ensures SqlIdEquals(Str(NatToString(id)), id)
  {
    TextNumberOfDigits(NatToString(id));
    NatToStringRoundTrip(id);
  }

  ghost predicate ProductsValid(rows: seq<ProductRow>, next: nat) {
    && (forall i, j :: 0 <= i < j < |rows| ==> rows[i].id < rows[j].id)
    && (forall i :: 0 <= i < |rows| ==> rows[i].id < next)
  }

  /** A row under the counter's value goes after every existing product. */
  lemma ProductsAppendValid(rows: seq<ProductRow>, next: nat, row: ProductRow)
    requires ProductsValid(rows, next) && row.id == next
    ensures ProductsValid(rows + [row], next + 1)
  {
  }

  ghost predicate CategoriesValid(rows: seq<CategoryRow>, next: nat) {
    && (forall i, j :: 0 <= i < j < |rows| ==> rows[i].id < rows[j].id)
    && (forall i :: 0 <= i < |rows| ==> rows[i].id < next)
  }

  ghost predicate FavoritesValid(rows: seq<FavoriteRow>, next: nat) {
    && (forall i, j :: 0 <= i < j < |rows| ==> rows[i].id < rows[j].id)
    && (forall i :: 0 <= i < |rows| ==> rows[i].id < next)
    && (forall i, j :: 0 <= i < j < |rows| ==>
          rows[i].userId != rows[j].userId || rows[i].productId != rows[j].productId)
  }

  ghost predicate OrdersValid(rows: seq<OrderRow>, next: nat) {
    && (forall i, j :: 0 <= i < j < |rows| ==> rows[i].id < rows[j].id)
    && (forall i :: 0 <= i < |rows| ==> rows[i].id < next)
  }

  ghost predicate CommentsValid(rows: seq<CommentRow>, next: nat) {
    && (forall i, j :: 0 <= i < j < |rows| ==> rows[i].id < rows[j].id)
    && (forall i :: 0 <= i < |rows| ==> rows[i].id < next)
  }

  ghost predicate UsersValid(rows: seq<UserRow>, next: nat) {
    && (forall i, j :: 0 <= i < j < |rows| ==> rows[i].id < rows[j].id)
    && (forall i :: 0 <= i < |rows| ==> rows[i].id < next)
    && (forall i :: 0 <= i < |rows| ==> SqlText(rows[i].email).Some?)
    && (forall i, j :: 0 <= i < j < |rows| ==> SqlText(rows[i].email) != SqlText(rows[j].email))
  }

  /** A new user with an e-mail no stored user has goes after every existing user. */
  lemma UsersAppendValid(rows: seq<UserRow>, next: nat, row: UserRow)
    requires UsersValid(rows, next) && row.id == next && SqlText(row.email).Some?
    requires forall i :: 0 <= i < |rows| ==> SqlText(rows[i].email) != SqlText(row.email)
    ensures UsersValid(rows + [row], next + 1)
  {
  }

  class Db {
    var products: seq<ProductRow>
    var categories: seq<CategoryRow>
    var favorites: seq<FavoriteRow>
    var orders: seq<OrderRow>
    var comments: seq<CommentRow>
    var users: seq<UserRow>
    // the AUTO_INCREMENT counters
    var nextProductId: nat
    var nextCategoryId: nat
    var nextFavoriteId: nat
    var nextOrderId: nat
    var nextCommentId: nat
    var nextUserId: nat

    /**
     * Ids grow with insertion order and stay below each table's counter;
     * `UNIQUE KEY (user_id, product_id)` on favorites and `email UNIQUE` on users.
     */
    ghost predicate Valid()
      reads this
    {
      && ProductsValid(products, nextProductId)
      && CategoriesValid(categories, nextCategoryId)
      && FavoritesValid(favorites, nextFavoriteId)
      && OrdersValid(orders, nextOrderId)
      && CommentsValid(comments, nextCommentId)
      && UsersValid(users, nextUserId)
    }

    constructor ()
      ensures Valid()
      ensures products == [] && categories == [] && favorites == []
      ensures orders == [] && comments == [] && users == []
    {
      products, categories, favorites := [], [], [];
      orders, comments, users := [], [], [];
      nextProductId, nextCategoryId, nextFavoriteId := 1, 1, 1;
      nextOrderId, nextCommentId, nextUserId := 1, 1, 1;
    }
  }
}
