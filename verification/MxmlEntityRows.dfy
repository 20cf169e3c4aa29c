/**
  The table of named entities as `_mxml_entity_cb` has it (libsrc/mxml/mxml-entity.c:151-407),
  in runs of eight rows, each of which is in order.
*/
module MxmlEntityRows {

  datatype Row = Row(name: string, val: int)

  /** From position `i` on, `s` comes before `t` in the order of ASCII. */
  predicate Less(s: string, t: string, i: nat)
    requires i <= |s| && i <= |t|
    decreases |s| - i
  {
    i < |t| && (i == |s| || s[i] < t[i] <= '~' || (s[i] == t[i] && Less(s, t, i + 1)))
  }

  predicate Follows(rows: seq<Row>, k: nat)
    requires k + 1 < |rows|
  {
    Less(rows[k].name, rows[k + 1].name, 0)
  }

  predicate Rising(rows: seq<Row>) {
    forall k: nat :: k + 1 < |rows| ==> Follows(rows, k)
  }

  /** Characters that stand for themselves in any XML text. */
  predicate Printing(rows: seq<Row>) {
    forall k :: 0 <= k < |rows| ==> 32 <= rows[k].val < 0xFEFF
  }

  type Run = rows: seq<Row> | |rows| > 0 && Rising(rows) && Printing(rows) witness [Row("amp", 38)]

  const ROWS_1: Run := [
    Row("AElig", 198), Row("Aacute", 193), Row("Acirc", 194), Row("Agrave", 192), Row("Alpha", 913),
    Row("Aring", 197), Row("Atilde", 195), Row("Auml", 196)]

  const ROWS_2: Run := [
    Row("Beta", 914), Row("Ccedil", 199), Row("Chi", 935), Row("Dagger", 8225), Row("Delta", 916),
    Row("Dstrok", 208), Row("ETH", 208), Row("Eacute", 201)]

  const ROWS_3: Run := [
    Row("Ecirc", 202), Row("Egrave", 200), Row("Epsilon", 917), Row("Eta", 919), Row("Euml", 203), Row("Gamma", 915),
    Row("Iacute", 205), Row("Icirc", 206)]

  const ROWS_4: Run := [
    Row("Igrave", 204), Row("Iota", 921), Row("Iuml", 207), Row("Kappa", 922), Row("Lambda", 923), Row("Mu", 924),
    Row("Ntilde", 209), Row("Nu", 925)]

  const ROWS_5: Run := [
    Row("OElig", 338), Row("Oacute", 211), Row("Ocirc", 212), Row("Ograve", 210), Row("Omega", 937),
    Row("Omicron", 927), Row("Oslash", 216), Row("Otilde", 213)]

  const ROWS_6: Run := [
    Row("Ouml", 214), Row("Phi", 934), Row("Pi", 928), Row("Prime", 8243), Row("Psi", 936), Row("Rho", 929),
    Row("Scaron", 352), Row("Sigma", 931)]

  const ROWS_7: Run := [
    Row("THORN", 222), Row("Tau", 932), Row("Theta", 920), Row("Uacute", 218), Row("Ucirc", 219), Row("Ugrave", 217),
    Row("Upsilon", 933), Row("Uuml", 220)]

  const ROWS_8: Run := [
    Row("Xi", 926), Row("Yacute", 221), Row("Yuml", 376), Row("Zeta", 918), Row("aacute", 225), Row("acirc", 226),
    Row("acute", 180), Row("aelig", 230)]

  const ROWS_9: Run := [
    Row("agrave", 224), Row("alefsym", 8501), Row("alpha", 945), Row("amp", 38), Row("and", 8743), Row("ang", 8736),
    Row("apos", 39), Row("aring", 229)]

  const ROWS_10: Run := [
    Row("asymp", 8776), Row("atilde", 227), Row("auml", 228), Row("bdquo", 8222), Row("beta", 946),
    Row("brkbar", 166), Row("brvbar", 166), Row("bull", 8226)]

  const ROWS_11: Run := [
    Row("cap", 8745), Row("ccedil", 231), Row("cedil", 184), Row("cent", 162), Row("chi", 967), Row("circ", 710),
    Row("clubs", 9827), Row("cong", 8773)]

  const ROWS_12: Run := [
    Row("copy", 169), Row("crarr", 8629), Row("cup", 8746), Row("curren", 164), Row("dArr", 8659),
    Row("dagger", 8224), Row("darr", 8595), Row("deg", 176)]

  const ROWS_13: Run := [
    Row("delta", 948), Row("diams", 9830), Row("die", 168), Row("divide", 247), Row("eacute", 233),
    Row("ecirc", 234), Row("egrave", 232), Row("empty", 8709)]

  const ROWS_14: Run := [
    Row("emsp", 8195), Row("ensp", 8194), Row("epsilon", 949), Row("equiv", 8801), Row("eta", 951), Row("eth", 240),
    Row("euml", 235), Row("euro", 8364)]

  const ROWS_15: Run := [
    Row("exist", 8707), Row("fnof", 402), Row("forall", 8704), Row("frac12", 189), Row("frac14", 188),
    Row("frac34", 190), Row("frasl", 8260), Row("gamma", 947)]

  const ROWS_16: Run := [
    Row("ge", 8805), Row("gt", 62), Row("hArr", 8660), Row("harr", 8596), Row("hearts", 9829), Row("hellip", 8230),
    Row("hibar", 175), Row("iacute", 237)]

  const ROWS_17: Run := [
    Row("icirc", 238), Row("iexcl", 161), Row("igrave", 236), Row("image", 8465), Row("infin", 8734),
    Row("int", 8747), Row("iota", 953), Row("iquest", 191)]

  const ROWS_18: Run := [
    Row("isin", 8712), Row("iuml", 239), Row("kappa", 954), Row("lArr", 8656), Row("lambda", 955), Row("lang", 9001),
    Row("laquo", 171), Row("larr", 8592)]

  const ROWS_19: Run := [
    Row("lceil", 8968), Row("ldquo", 8220), Row("le", 8804), Row("lfloor", 8970), Row("lowast", 8727),
    Row("loz", 9674), Row("lrm", 8206), Row("lsaquo", 8249)]

  const ROWS_20: Run := [
    Row("lsquo", 8216), Row("lt", 60), Row("macr", 175), Row("mdash", 8212), Row("micro", 181), Row("middot", 183),
    Row("minus", 8722), Row("mu", 956)]

  const ROWS_21: Run := [
    Row("nabla", 8711), Row("nbsp", 160), Row("ndash", 8211), Row("ne", 8800), Row("ni", 8715), Row("not", 172),
    Row("notin", 8713), Row("nsub", 8836)]

  const ROWS_22: Run := [
    Row("ntilde", 241), Row("nu", 957), Row("oacute", 243), Row("ocirc", 244), Row("oelig", 339), Row("ograve", 242),
    Row("oline", 8254), Row("omega", 969)]

  const ROWS_23: Run := [
    Row("omicron", 959), Row("oplus", 8853), Row("or", 8744), Row("ordf", 170), Row("ordm", 186), Row("oslash", 248),
    Row("otilde", 245), Row("otimes", 8855)]

  const ROWS_24: Run := [
    Row("ouml", 246), Row("para", 182), Row("part", 8706), Row("permil", 8240), Row("perp", 8869), Row("phi", 966),
    Row("pi", 960), Row("piv", 982)]

  const ROWS_25: Run := [
    Row("plusmn", 177), Row("pound", 163), Row("prime", 8242), Row("prod", 8719), Row("prop", 8733), Row("psi", 968),
    Row("quot", 34), Row("rArr", 8658)]

  const ROWS_26: Run := [
    Row("radic", 8730), Row("rang", 9002), Row("raquo", 187), Row("rarr", 8594), Row("rceil", 8969),
    Row("rdquo", 8221), Row("real", 8476), Row("reg", 174)]

  const ROWS_27: Run := [
    Row("rfloor", 8971), Row("rho", 961), Row("rlm", 8207), Row("rsaquo", 8250), Row("rsquo", 8217),
    Row("sbquo", 8218), Row("scaron", 353), Row("sdot", 8901)]

  const ROWS_28: Run := [
    Row("sect", 167), Row("shy", 173), Row("sigma", 963), Row("sigmaf", 962), Row("sim", 8764), Row("spades", 9824),
    Row("sub", 8834), Row("sube", 8838)]

  const ROWS_29: Run := [
    Row("sum", 8721), Row("sup", 8835), Row("sup1", 185), Row("sup2", 178), Row("sup3", 179), Row("supe", 8839),
    Row("szlig", 223), Row("tau", 964)]

  const ROWS_30: Run := [
    Row("there4", 8756), Row("theta", 952), Row("thetasym", 977), Row("thinsp", 8201), Row("thorn", 254),
    Row("tilde", 732), Row("times", 215), Row("trade", 8482)]

  const ROWS_31: Run := [
    Row("uArr", 8657), Row("uacute", 250), Row("uarr", 8593), Row("ucirc", 251), Row("ugrave", 249), Row("uml", 168),
    Row("upsih", 978), Row("upsilon", 965)]

  const ROWS_32: Run := [
    Row("uuml", 252), Row("weierp", 8472), Row("xi", 958), Row("yacute", 253), Row("yen", 165), Row("yuml", 255),
    Row("zeta", 950), Row("zwj", 8205)]

  const ROWS_33: Run := [
    Row("zwnj", 8204)]

  /** All runs, in the order of the table. */
  const RUNS: seq<Run> := [
    ROWS_1, ROWS_2, ROWS_3, ROWS_4, ROWS_5, ROWS_6, ROWS_7, ROWS_8, ROWS_9, ROWS_10, ROWS_11, ROWS_12, ROWS_13,
    ROWS_14, ROWS_15, ROWS_16, ROWS_17, ROWS_18, ROWS_19, ROWS_20, ROWS_21, ROWS_22, ROWS_23, ROWS_24, ROWS_25,
    ROWS_26, ROWS_27, ROWS_28, ROWS_29, ROWS_30, ROWS_31, ROWS_32, ROWS_33]

  predicate Behind(a: Run, b: Run) {
    Less(a[|a| - 1].name, b[0].name, 0)
  }

  lemma Order1()
    ensures Behind(ROWS_1, ROWS_2)
    ensures Behind(ROWS_2, ROWS_3)
    ensures Behind(ROWS_3, ROWS_4)
    ensures Behind(ROWS_4, ROWS_5)
    ensures Behind(ROWS_5, ROWS_6)
    ensures Behind(ROWS_6, ROWS_7)
    ensures Behind(ROWS_7, ROWS_8)
    ensures Behind(ROWS_8, ROWS_9)
  {
    hide Rising, Printing;
  }

  lemma Order2()
    ensures Behind(ROWS_9, ROWS_10)
    ensures Behind(ROWS_10, ROWS_11)
    ensures Behind(ROWS_11, ROWS_12)
    ensures Behind(ROWS_12, ROWS_13)
    ensures Behind(ROWS_13, ROWS_14)
    ensures Behind(ROWS_14, ROWS_15)
    ensures Behind(ROWS_15, ROWS_16)
    ensures Behind(ROWS_16, ROWS_17)
  {
    hide Rising, Printing;
  }

  lemma Order3()
    ensures Behind(ROWS_17, ROWS_18)
    ensures Behind(ROWS_18, ROWS_19)
    ensures Behind(ROWS_19, ROWS_20)
    ensures Behind(ROWS_20, ROWS_21)
    ensures Behind(ROWS_21, ROWS_22)
    ensures Behind(ROWS_22, ROWS_23)
    ensures Behind(ROWS_23, ROWS_24)
    ensures Behind(ROWS_24, ROWS_25)
  {
    hide Rising, Printing;
  }

  lemma Order4()
    ensures Behind(ROWS_25, ROWS_26)
    ensures Behind(ROWS_26, ROWS_27)
    ensures Behind(ROWS_27, ROWS_28)
    ensures Behind(ROWS_28, ROWS_29)
    ensures Behind(ROWS_29, ROWS_30)
    ensures Behind(ROWS_30, ROWS_31)
    ensures Behind(ROWS_31, ROWS_32)
    ensures Behind(ROWS_32, ROWS_33)
  {
    hide Rising, Printing;
  }

  lemma RunsInOrder()
    ensures forall k: nat :: k + 1 < |RUNS| ==> Behind(RUNS[k], RUNS[k + 1])
  {
    hide Rising, Printing, Behind;
    Order1();
    Order2();
    Order3();
    Order4();
  }

  /** How many rows there are, and where those stand that the writer needs. */
  lemma RunsHold()
    ensures |RUNS| == 33 && |RUNS[32]| == 1 && forall k: nat :: k < 32 ==> |RUNS[k]| == 8
    ensures
      && RUNS[8][3] == Row("amp", 38)
      && RUNS[15][1] == Row("gt", 62)
      && RUNS[19][1] == Row("lt", 60)
      && RUNS[24][6] == Row("quot", 34)
  {
    hide Rising, Printing;
  }
}
