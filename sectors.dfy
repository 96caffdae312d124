/**
 * The sector table: an insertion-ordered code -> label dictionary. The page
 * shows the labels; the chosen label is turned back into its code through
 * its position in the list of labels, and the data column read is
 * "<code>_TC".
 */
module Sectors {
  import opened Wrappers

  /** (code, label) pairs in the dictionary's insertion order. */
  const Table: seq<(string, string)> := [
    ("IVAE_General", "IVAE GENERAL"),
    ("IVAE_Agropecuario", "SECTOR AGROPECUARIO"),
    ("IPI", "PRODUCCIÓN INDUSTRIAL (IPI)"),
    ("IVAE_Construccion", "SECTOR CONSTRUCCIÓN"),
    ("IVAE_Comercio_Servicios", "COMERCIO Y SERVICIOS"),
    ("IVAE_Info_Comunicaciones", "INFORMACIÓN Y COMUNICACIONES"),
    ("IVAE_Financiero", "ACTIVIDADES FINANCIERAS Y DE SEGUROS"),
    ("IVAE_Inmobiliario", "ACTIVIDADES INMOBILIARIAS"),
    ("IVAE_Servicios_Profesionales", "SERVICIOS PROFESIONALES Y TÉCNICOS"),
    ("IVAE_Servicios_Publicos", "ADMINISTRACIÓN PÚBLICA Y DEFENSA")
  ]

  /** The codes, in table order. */
  function Codes(): (cs: seq<string>)
    ensures |cs| == |Table|
    ensures forall i :: 0 <= i < |Table| ==> cs[i] == Table[i].0
  {
    seq(|Table|, i requires 0 <= i < |Table| => Table[i].0)
  }

  /** The labels, in table order. */
  function Labels(): (ls: seq<string>)
    ensures |ls| == |Table|
    ensures forall i :: 0 <= i < |Table| ==> ls[i] == Table[i].1
  {
    seq(|Table|, i requires 0 <= i < |Table| => Table[i].1)
  }

  /** The first position holding x; None when x does not occur (a lookup error in the page). */
  function IndexOf(xs: seq<string>, x: string): (r: Option<nat>)
    ensures r.Some? ==> r.value < |xs| && xs[r.value] == x
                        && forall j :: 0 <= j < r.value ==> xs[j] != x
    ensures r.None? <==> x !in xs
  {
    if xs == [] then None
    else if xs[0] == x then Some(0)
    else match IndexOf(xs[1..], x)
      case None => None
      case Some(i) => Some(i + 1)
  }

  predicate Distinct(xs: seq<string>) {
    forall i, j :: 0 <= i < j < |xs| ==> xs[i] != xs[j]
  }

  /** Ten sectors; neither two codes nor two labels coincide, so the table is a bijection. */
  lemma TableIsBijection()
    ensures |Table| == 10
    ensures Distinct(Codes()) && Distinct(Labels())
  {
    var cs, ls := Codes(), Labels();
    forall i, j | 0 <= i < j < |cs| ensures cs[i] != cs[j] && ls[i] != ls[j] {
      // A prover hint: two entries differ in length or in a short prefix, which is cheaper to see.
      assert |cs[i]| != |cs[j]| || cs[i][..5] != cs[j][..5] || cs[i] != cs[j];
    }
  }

  /** The label of a code; None for a code the table does not have (a lookup error in the page). */
  function LabelOf(code: string): (r: Option<string>)
    ensures r.Some? <==> code in Codes()
  {
    match IndexOf(Codes(), code)
    case None => None
    case Some(i) => Some(Table[i].1)
  }

  /** The code whose label the user picked: the code at the label's position in the table. */
  function CodeFor(name: string): (r: Option<string>)
    ensures r.Some? <==> name in Labels()
    ensures r.Some? ==> (r.value, name) in Table
  {
    match IndexOf(Labels(), name)
    case None => None
    case Some(i) => Some(Table[i].0)
  }

  /** The data column of a sector: the code followed by "_TC". */
  function ColumnName(code: string): (c: string)
    ensures |c| == |code| + 3 && c[..|code|] == code && c[|code|..] == "_TC"
  {
    code + "_TC"
  }

  /** The inversion is exact: the picked code maps back to the picked label, and only offered labels resolve. */
  lemma CodeForInverts(name: string)
    ensures CodeFor(name).Some? <==> name in Labels()
    ensures CodeFor(name).Some? ==> LabelOf(CodeFor(name).value) == Some(name)
  {
    TableIsBijection();
    match IndexOf(Labels(), name)
    case None =>
    case Some(i) =>
      var code := Table[i].0;
      assert Codes()[i] == code;
      var k := IndexOf(Codes(), code);
      assert k.Some? && Codes()[k.value] == code;
      assert k.value == i;
  }

  /** Every sector code is recovered from its own label. */
  lemma LabelOfInverts(code: string)
    requires code in Codes()
    ensures CodeFor(LabelOf(code).value) == Some(code)
  {
    TableIsBijection();
    var i := IndexOf(Codes(), code).value;
    var name := Table[i].1;
    assert Labels()[i] == name;
    var k := IndexOf(Labels(), name);
    assert k.Some? && Labels()[k.value] == name;
    assert k.value == i;
  }

  /** The column read for a picked label: its code's data column. */
  function ColumnFor(name: string): (r: Option<string>)
    ensures r.Some? <==> name in Labels()
    ensures r.Some? ==> exists code :: LabelOf(code) == Some(name) && r.value == ColumnName(code)
  {
    CodeForInverts(name);
    match CodeFor(name)
    case None => None
    case Some(code) => Some(ColumnName(code))
  }

  /** The default selection: the first label resolves to the general index column. */
  lemma GeneralIndexColumn()
    ensures ColumnFor("IVAE GENERAL") == Some("IVAE_General_TC")
  {
    assert Labels()[0] == "IVAE GENERAL";
    assert IndexOf(Labels(), "IVAE GENERAL") == Some(0);
    assert ColumnName("IVAE_General") == "IVAE_General_TC";
  }
}
