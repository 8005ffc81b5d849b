/**
 * The User record (models/User.java) and its three serialisers: the display
 * form toString, the CSV row toCsvRow and the CSV header.
 */
module Users {
  import opened Wrappers
  import opened Strings

  /** A java.util.Date: an instant, in milliseconds since the epoch. */
  datatype Date = Date(epochMillis: int)

  /**
   * One decoded row. birthDate is None where the Java field stays null
   * because the row's date text did not parse.
   */
  datatype User = User(
    id: int64,
    firstName: string,
    lastName: string,
    emailAddress: string,
    gender: string,
    country: string,
    birthDate: Option<Date>,
    title: string)

  /**
   * The text both serialisers print for the birth date: the date formatted
   * with the MM/dd/yyyy pattern (the format parameter), or "" when absent.
   */
  function BirthDateText(d: Option<Date>, format: Date -> string): string
  {
    if d.Some? then format(d.value) else ""
  }

  /** User.generateCsvHeaderString. */
  function CsvHeader(): string
  {
    "id,firstName,lastName,email,gender,country,birthDate,title"
  }

  /** User.toCsvRow. */
  function ToCsvRow(u: User, format: Date -> string): string
  {
    LongText(u.id as int) + ","
      + u.firstName + ","
      + u.lastName + ","
      + u.emailAddress + ","
      + u.gender + ","
      + u.country + ","
      + BirthDateText(u.birthDate, format) + ","
      + u.title
  }

  /**
   * User.toString. The source writes each glue literal in two parts (", "
   * then "firstName: '"); here adjacent literals are written as one.
   */
  function ToString(u: User, format: Date -> string): string
  {
    "user: { id: " + LongText(u.id as int)
      + ", firstName: '" + u.firstName
      + "', lastName: '" + u.lastName
      + "', email: '" + u.emailAddress
      + "', gender: '" + u.gender
      + "', country: '" + u.country
      + "', birthDate: '" + BirthDateText(u.birthDate, format)
      + "', title: '" + u.title
      + "' }"
  }

  // ---------------------------------------------------------------------------
  // Reference layouts the serialisers are proved against.

  /** The CSV column names, in column order. */
  const CsvColumns: seq<string> :=
    ["id", "firstName", "lastName", "email", "gender", "country", "birthDate", "title"]

  /** The eight values of a user, in CSV column order. */
  function CsvFields(u: User, format: Date -> string): seq<string>
  {
    [LongText(u.id as int), u.firstName, u.lastName, u.emailAddress,
     u.gender, u.country, BirthDateText(u.birthDate, format), u.title]
  }

  /**
   * The fixed text toString puts around the values: the opening and the
   * field labels, in order, and the closing.
   */
  const DisplayGlue: seq<string> :=
    ["user: { id: ", ", firstName: '", "', lastName: '", "', email: '", "', gender: '",
     "', country: '", "', birthDate: '", "', title: '", "' }"]

  /** glue[0] + values[0] + glue[1] + ... + values[n-1] + glue[n]. */
  function Fill(glue: seq<string>, values: seq<string>): string
    requires |glue| == |values| + 1
  {
    if values == [] then glue[0]
    else Fill(glue[..|glue| - 1], values[..|values| - 1]) + values[|values| - 1] + glue[|glue| - 1]
  }

  // ---------------------------------------------------------------------------
  // Properties.

  /** Eight pieces joined: the pieces with the separator between neighbours, left to right. */
  lemma JoinEight(f: seq<string>, sep: char)
    requires |f| == 8
    ensures Join(f, sep)
      == f[0] + [sep] + f[1] + [sep] + f[2] + [sep] + f[3] + [sep]
         + f[4] + [sep] + f[5] + [sep] + f[6] + [sep] + f[7]
  {
    assert f[..1] == [f[0]];
    assert f[..2] == f[..1] + [f[1]];
    JoinSnoc(f[..1], f[1], sep);
    assert f[..3] == f[..2] + [f[2]];
    JoinSnoc(f[..2], f[2], sep);
    assert f[..4] == f[..3] + [f[3]];
    JoinSnoc(f[..3], f[3], sep);
    assert f[..5] == f[..4] + [f[4]];
    JoinSnoc(f[..4], f[4], sep);
    assert f[..6] == f[..5] + [f[5]];
    JoinSnoc(f[..5], f[5], sep);
    assert f[..7] == f[..6] + [f[6]];
    JoinSnoc(f[..6], f[6], sep);
    assert f == f[..7] + [f[7]];
    JoinSnoc(f[..7], f[7], sep);
  }

  /** The first four column names joined, as in the header literal. */
  lemma HeaderFront()
    ensures var c := CsvColumns;
            c[0] + [','] + c[1] + [','] + c[2] + [','] + c[3] == "id,firstName,lastName,email"
  {
    var c := CsvColumns;
    var h1 := c[0] + [','] + c[1];
    assert h1 == "id,firstName";
    var h2 := h1 + [','] + c[2];
    assert h2 == "id,firstName,lastName";
  }

  /** The header literal, column name by column name. */
  lemma HeaderText()
    ensures var c := CsvColumns;
            CsvHeader()
            == c[0] + [','] + c[1] + [','] + c[2] + [','] + c[3] + [',']
               + c[4] + [','] + c[5] + [','] + c[6] + [','] + c[7]
  {
    var c := CsvColumns;
    HeaderFront();
    var h4 := "id,firstName,lastName,email" + [','] + c[4];
    assert h4 == "id,firstName,lastName,email,gender";
    var h5 := h4 + [','] + c[5];
    assert h5 == "id,firstName,lastName,email,gender,country";
    var h6 := h5 + [','] + c[6];
    assert h6 == "id,firstName,lastName,email,gender,country,birthDate";
    assert h6 + [','] + c[7] == CsvHeader();
  }

  /** The header text is the column names joined by commas. */
  lemma HeaderIsJoin()
    ensures CsvHeader() == Join(CsvColumns, ',')
  {
    HeaderText();
    JoinEight(CsvColumns, ',');
  }

  lemma HeaderNamesCommaFree()
    ensures forall i | 0 <= i < |CsvColumns| :: ',' !in CsvColumns[i]
  {
  }

  /**
   * The header is the eight column names, in the order toCsvRow prints the
   * values, and splitting it on commas gives them back.
   */
  lemma CsvHeaderColumns()
    ensures |CsvColumns| == 8
    ensures CsvHeader() == Join(CsvColumns, ',')
    ensures Split(CsvHeader(), ',') == CsvColumns
  {
    HeaderIsJoin();
    HeaderNamesCommaFree();
    SplitJoin(CsvColumns, ',');
  }

  /** A CSV row is the user's eight values, in header order, joined by single commas. */
  lemma CsvRowFields(u: User, format: Date -> string)
    ensures |CsvFields(u, format)| == |CsvColumns|
    ensures ToCsvRow(u, format) == Join(CsvFields(u, format), ',')
  {
    JoinEight(CsvFields(u, format), ',');
  }

  /**
   * When no text field contains a comma, splitting a CSV row on commas gives
   * back exactly the eight values: the id's decimal text (which reads back as
   * the id), the five name/contact fields, the date text and the title.
   */
  lemma CsvRowSplits(u: User, format: Date -> string)
    requires ',' !in u.firstName && ',' !in u.lastName && ',' !in u.emailAddress
    requires ',' !in u.gender && ',' !in u.country && ',' !in u.title
    requires u.birthDate.Some? ==> ',' !in format(u.birthDate.value)
    ensures |Split(ToCsvRow(u, format), ',')| == |CsvColumns|
    ensures Split(ToCsvRow(u, format), ',') == CsvFields(u, format)
    ensures ParseLong(Split(ToCsvRow(u, format), ',')[0]) == u.id as int
    ensures Split(ToCsvRow(u, format), ',')[6] == BirthDateText(u.birthDate, format)
  {
    CsvRowFields(u, format);
    SplitJoin(CsvFields(u, format), ',');
    LongTextRoundTrip(u.id as int);
  }

  /**
   * An absent birth date prints as nothing between its commas, and the rest
   * of the row is what it is with a date: the present date's text sits in
   * exactly that slot.
   */
  lemma CsvRowAbsentDate(u: User, d: Date, format: Date -> string)
    ensures var without := ToCsvRow(u.(birthDate := None), format);
            var with := ToCsvRow(u.(birthDate := Some(d)), format);
            var k := |without| - |u.title| - 1;
            0 <= k
            && without[k..] == "," + u.title
            && with == without[..k] + format(d) + without[k..]
  {
    var front := LongText(u.id as int) + "," + u.firstName + "," + u.lastName + ","
      + u.emailAddress + "," + u.gender + "," + u.country + ",";
    var without := ToCsvRow(u.(birthDate := None), format);
    assert without == front + "" + "," + u.title;
    assert without == front + ("," + u.title);
    var k := |without| - |u.title| - 1;
    assert without[..k] == front;
    assert without[k..] == "," + u.title;
  }

  /**
   * toString is the fixed glue of DisplayGlue (the opening "user: { id: ",
   * each field's label in the order id, firstName, lastName, email, gender,
   * country, birthDate, title, and the closing "' }") with the user's values
   * in between.
   */
  lemma ToStringLayout(u: User, format: Date -> string)
    ensures ToString(u, format) == Fill(DisplayGlue, CsvFields(u, format))
  {
    FillEight(DisplayGlue, CsvFields(u, format));
  }

  /** Nine pieces of glue around eight values, left to right. */
  lemma FillEight(g: seq<string>, v: seq<string>)
    requires |g| == 9 && |v| == 8
    ensures Fill(g, v)
      == g[0] + v[0] + g[1] + v[1] + g[2] + v[2] + g[3] + v[3] + g[4]
         + v[4] + g[5] + v[5] + g[6] + v[6] + g[7] + v[7] + g[8]
  {
    assert Fill(g[..1], v[..0]) == g[0];
    assert g[..2][..1] == g[..1] && v[..1][..0] == v[..0];
    assert Fill(g[..2], v[..1]) == Fill(g[..1], v[..0]) + v[0] + g[1];
    assert g[..3][..2] == g[..2] && v[..2][..1] == v[..1];
    assert Fill(g[..3], v[..2]) == Fill(g[..2], v[..1]) + v[1] + g[2];
    assert g[..4][..3] == g[..3] && v[..3][..2] == v[..2];
    assert Fill(g[..4], v[..3]) == Fill(g[..3], v[..2]) + v[2] + g[3];
    assert g[..5][..4] == g[..4] && v[..4][..3] == v[..3];
    assert Fill(g[..5], v[..4]) == Fill(g[..4], v[..3]) + v[3] + g[4];
    assert g[..6][..5] == g[..5] && v[..5][..4] == v[..4];
    assert Fill(g[..6], v[..5]) == Fill(g[..5], v[..4]) + v[4] + g[5];
    assert g[..7][..6] == g[..6] && v[..6][..5] == v[..5];
    assert Fill(g[..7], v[..6]) == Fill(g[..6], v[..5]) + v[5] + g[6];
    assert g[..8][..7] == g[..7] && v[..7][..6] == v[..6];
    assert Fill(g[..8], v[..7]) == Fill(g[..7], v[..6]) + v[6] + g[7];
    assert g[..9][..8] == g[..8] && v[..8][..7] == v[..7];
    assert g[..9] == g && v[..8] == v;
  }

  /** toString opens with "user: { id: " and the id's text and closes with "' }". */
  lemma ToStringEnds(u: User, format: Date -> string)
    ensures var s := ToString(u, format);
            "user: { id: " + LongText(u.id as int) + ", firstName: '" <= s
            && |s| >= 3 && s[|s| - 3..] == "' }"
  {
  }

  /**
   * An absent birth date prints as '' in toString and the rest of the text
   * is unchanged: a present date's text sits in exactly that slot.
   */
  lemma ToStringAbsentDate(u: User, d: Date, format: Date -> string)
    ensures var without := ToString(u.(birthDate := None), format);
            var with := ToString(u.(birthDate := Some(d)), format);
            var tail := "', title: '" + u.title + "' }";
            var k := |without| - |tail|;
            0 <= k
            && without[k..] == tail
            && with == without[..k] + format(d) + without[k..]
  {
    var front := "user: { id: " + LongText(u.id as int)
      + ", firstName: '" + u.firstName
      + "', lastName: '" + u.lastName
      + "', email: '" + u.emailAddress
      + "', gender: '" + u.gender
      + "', country: '" + u.country
      + "', birthDate: '";
    var tail := "', title: '" + u.title + "' }";
    var without := ToString(u.(birthDate := None), format);
    assert without == front + "" + "', title: '" + u.title + "' }";
    assert without == front + tail;
    var k := |without| - |tail|;
    assert without[..k] == front;
  }
}
