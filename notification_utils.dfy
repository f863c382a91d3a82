/** The notice token generator and the CPF/CNPJ document mask. */
module NotificationUtils {
  import opened Text
  import opened Notices

  // ---------------------------------------------------------------------------
  // Tokens: "MR3X-NEJ-<year>-<six digits>"

  const TokenPrefix: string := "MR3X-NEJ-"

  /** `Math.floor(Math.random() * 900000) + 100000`, for the value u that
      `Math.random()` returned (a real in [0, 1)). */
  function RandomPart(u: real): (r: nat)
    requires 0.0 <= u < 1.0
    ensures 100000 <= r <= 999999
  {
    (u * 900000.0).Floor + 100000
  }

  /** Every six-digit number is a possible random part. */
  lemma RandomPartOnto(r: nat)
    requires 100000 <= r <= 999999
    ensures var u := (r - 100000) as real / 900000.0;
            0.0 <= u < 1.0 && RandomPart(u) == r
  {
    var u := (r - 100000) as real / 900000.0;
    assert u * 900000.0 == (r - 100000) as real;
  }

  /** The token text for a year and a random part. */
  function Token(year: int, r: nat): string {
    TokenPrefix + (IntText(year) + "-" + NatText(r))
  }

  /** `generateToken()`, with the clock's year and the draw of `Math.random()`
      as parameters. */
  function GenerateToken(year: int, u: real): (t: string)
    requires 0.0 <= u < 1.0
    ensures t == Token(year, RandomPart(u))
    ensures |t| == |TokenPrefix| + |IntText(year)| + 7
    ensures t[..|TokenPrefix|] == TokenPrefix
    ensures AllDigits(t[|t| - 6..]) && t[|t| - 7] == '-'
  {
    var r := RandomPart(u);
    Pow10Values();
    NatTextLength(r, 6);
    var t := Token(year, r);
    assert t[|t| - 6..] == NatText(r);
    t
  }

  /** Index of the last occurrence of c in s. */
  function LastIndexOf(s: string, c: char): (k: Option<nat>)
    ensures k.Some? ==> k.value < |s| && s[k.value] == c
                        && forall i :: k.value < i < |s| ==> s[i] != c
    ensures k.None? ==> forall i :: 0 <= i < |s| ==> s[i] != c
  {
    if s == [] then None
    else if s[|s| - 1] == c then Some(|s| - 1)
    else LastIndexOf(s[..|s| - 1], c)
  }

  predicate IsIntText(s: string) {
    |s| >= 1 && (if s[0] == '-' then |s| >= 2 && AllDigits(s[1..]) else AllDigits(s))
  }

  /** Reads a token back: the prefix, then the year up to the LAST '-', then
      the random part. */
  function ParseToken(t: string): (r: Option<(int, nat)>)
  {
    if |t| < |TokenPrefix| || t[..|TokenPrefix|] != TokenPrefix then None
    else ParseTokenBody(t[|TokenPrefix|..])
  }

  /** Reads the part of a token after its prefix. */
  function ParseTokenBody(rest: string): (r: Option<(int, nat)>)
  {
    match LastIndexOf(rest, '-')
    case None => None
    case Some(k) =>
      var yearText := rest[..k];
      var randomText := rest[k + 1..];
      if IsIntText(yearText) && |randomText| >= 1 && AllDigits(randomText)
      then Some((ParseInt(yearText), ParseNat(randomText)))
      else None
  }

  /** Splitting a token at its last '-' gives back the year and the random part. */
  lemma TokenRoundTrip(year: int, r: nat)
    ensures ParseToken(Token(year, r)) == Some((year, r))
  {
    var y := IntText(year);
    assert IsIntText(y) by {
      if year < 0 {
        assert y == "-" + NatText(-year);
      }
    }
    TokenParts(y, NatText(r));
    IntTextRoundTrip(year);
    NatTextRoundTrip(r);
  }

  /** A token made of the prefix, a year text, a '-' and digits is split at
      that '-', since the digits hold no other '-'. */
  lemma TokenParts(y: string, d: string)
    requires IsIntText(y) && |d| >= 1 && AllDigits(d)
    ensures ParseToken(TokenPrefix + (y + "-" + d)) == Some((ParseInt(y), ParseNat(d)))
  {
    PrefixThenBody(y + "-" + d);
    TokenBodyParts(y, d);
  }

  /** Behind the prefix the body is read. */
  lemma PrefixThenBody(rest: string)
    ensures ParseToken(TokenPrefix + rest) == ParseTokenBody(rest)
  {
    var t := TokenPrefix + rest;
    assert t[..|TokenPrefix|] == TokenPrefix;
    assert t[|TokenPrefix|..] == rest;
  }

  lemma TokenBodyParts(y: string, d: string)
    requires IsIntText(y) && |d| >= 1 && AllDigits(d)
    ensures ParseTokenBody(y + "-" + d) == Some((ParseInt(y), ParseNat(d)))
  {
    var rest := y + "-" + d;
    assert forall i :: 0 <= i < |d| ==> d[i] != '-';
    LastIndexAfter(y, '-', d);
    assert rest[..|y|] == y;
    assert rest[|y| + 1..] == d;
  }

  lemma {:induction false} LastIndexAfter(a: string, c: char, b: string)
    requires forall i :: 0 <= i < |b| ==> b[i] != c
    ensures LastIndexOf(a + [c] + b, c) == Some(|a|)
    decreases |b|
  {
    var s := a + [c] + b;
    if b != [] {
      assert s[..|s| - 1] == a + [c] + b[..|b| - 1];
      LastIndexAfter(a, c, b[..|b| - 1]);
    }
  }

  /** Matches the pattern MR3X-NEJ-\d{4}-\d{6} exactly. */
  predicate IsFourDigitYearToken(t: string) {
    |t| == 20 && t[..9] == TokenPrefix && AllDigits(t[9..13]) && t[13] == '-' && AllDigits(t[14..])
  }

  /** For a four-digit year the generated token has the documented shape, and
      it contains no lower-case letter, so upper-casing leaves it unchanged. */
  lemma GeneratedTokenShape(year: int, u: real)
    requires 1000 <= year <= 9999
    requires 0.0 <= u < 1.0
    ensures IsFourDigitYearToken(GenerateToken(year, u))
    ensures ToUpper(GenerateToken(year, u)) == GenerateToken(year, u)
  {
    Pow10Values();
    NatTextLength(year, 4);
    var r := RandomPart(u);
    NatTextLength(r, 6);
    DigitTokenShape(NatText(year), NatText(r));
  }

  /** The prefix, four digits, a '-' and six digits form a token of the
      documented shape without lower-case letters. */
  lemma DigitTokenShape(y: string, d: string)
    requires |y| == 4 && AllDigits(y) && |d| == 6 && AllDigits(d)
    ensures IsFourDigitYearToken(TokenPrefix + (y + "-" + d))
    ensures ToUpper(TokenPrefix + (y + "-" + d)) == TokenPrefix + (y + "-" + d)
  {
    var t := TokenPrefix + (y + "-" + d);
    assert t[..9] == TokenPrefix;
    assert t[9..13] == y;
    assert t[14..] == d;
    assert HasNoLowerCase(t) by {
      forall i | 0 <= i < |t|
        ensures !('a' <= t[i] <= 'z')
      {
        if i < 9 {
          assert t[i] == TokenPrefix[i];
        } else if i < 13 {
          assert t[i] == y[i - 9];
        } else if i > 13 {
          assert t[i] == d[i - 14];
        }
      }
    }
    UpperOfUpper(t);
  }


  // ---------------------------------------------------------------------------
  // formatDocument: CPF (11 digits) and CNPJ (14 digits) masks

  /** s follows mask: a 'd' in the mask stands for one digit, any other mask
      character for itself. */
  predicate FitsMask(s: string, mask: string) {
    |s| == |mask| && forall i :: 0 <= i < |s| ==> if mask[i] == 'd' then IsDigit(s[i]) else s[i] == mask[i]
  }

  const CpfMask: string := "ddd.ddd.ddd-dd"
  const CnpjMask: string := "dd.ddd.ddd/dddd-dd"

  /** `formatDocument(document)`: the digits of the input are masked as a CPF
      when there are 11 of them and as a CNPJ when there are 14; for any other
      count the input comes back untouched (not its digits). */
  function FormatDocument(document: string): (r: string)
    ensures var c := StripNonDigits(document);
            && (|c| == 11 ==> FitsMask(r, CpfMask) && StripNonDigits(r) == c)
            && (|c| == 14 ==> FitsMask(r, CnpjMask) && StripNonDigits(r) == c)
            && (|c| != 11 && |c| != 14 ==> r == document)
  {
    var c := StripNonDigits(document);
    if |c| == 11 then
      CpfDigits(c);
      c[..3] + "." + c[3..6] + "." + c[6..9] + "-" + c[9..]
    else if |c| == 14 then
      CnpjDigits(c);
      c[..2] + "." + c[2..5] + "." + c[5..8] + "/" + c[8..12] + "-" + c[12..]
    else
      document
  }

  lemma FitsMaskAppend(a: string, ma: string, b: string, mb: string)
    requires FitsMask(a, ma) && FitsMask(b, mb)
    ensures FitsMask(a + b, ma + mb)
  {
    assert forall i :: |a| <= i < |a| + |b| ==> (a + b)[i] == b[i - |a|] && (ma + mb)[i] == mb[i - |a|];
  }

  lemma CpfDigits(c: string)
    requires |c| == 11 && AllDigits(c)
    ensures var r := c[..3] + "." + c[3..6] + "." + c[6..9] + "-" + c[9..];
            FitsMask(r, CpfMask) && StripNonDigits(r) == c
  {
    CpfFits(c);
    var a, b, d, e := c[..3], c[3..6], c[6..9], c[9..];
    CpfStrip(a, b, d, e);
    assert a + b + d + e == c;
  }

  lemma CpfFits(c: string)
    requires |c| == 11 && AllDigits(c)
    ensures FitsMask(c[..3] + "." + c[3..6] + "." + c[6..9] + "-" + c[9..], CpfMask)
  {
    var a, b, d, e := c[..3], c[3..6], c[6..9], c[9..];
    assert FitsMask(a, "ddd") && FitsMask(b, "ddd") && FitsMask(d, "ddd") && FitsMask(e, "dd");
    FitsMaskAppend(a, "ddd", ".", ".");
    FitsMaskAppend(a + ".", "ddd.", b, "ddd");
    FitsMaskAppend(a + "." + b, "ddd.ddd", ".", ".");
    FitsMaskAppend(a + "." + b + ".", "ddd.ddd.", d, "ddd");
    FitsMaskAppend(a + "." + b + "." + d, "ddd.ddd.ddd", "-", "-");
    FitsMaskAppend(a + "." + b + "." + d + "-", "ddd.ddd.ddd-", e, "dd");
  }

  lemma CpfStrip(a: string, b: string, d: string, e: string)
    requires AllDigits(a) && AllDigits(b) && AllDigits(d) && AllDigits(e)
    ensures StripNonDigits(a + "." + b + "." + d + "-" + e) == a + b + d + e
  {
    var t3 := d + ['-'] + e;
    assert StripNonDigits(t3) == d + e by {
      StripNonDigitsOfDigits(d);
      StripNonDigitsOfDigits(e);
      StripNonDigitsSeparator(d, '-', e);
    }
    var t2 := b + ['.'] + t3;
    assert StripNonDigits(t2) == b + (d + e) by {
      StripNonDigitsOfDigits(b);
      StripNonDigitsSeparator(b, '.', t3);
    }
    var t1 := a + ['.'] + t2;
    assert StripNonDigits(t1) == a + (b + (d + e)) by {
      StripNonDigitsOfDigits(a);
      StripNonDigitsSeparator(a, '.', t2);
    }
    CpfRegroup(a, b, d, e);
  }

  lemma CpfRegroup(a: string, b: string, d: string, e: string)
    ensures a + "." + b + "." + d + "-" + e == a + ['.'] + (b + ['.'] + (d + ['-'] + e))
    ensures a + (b + (d + e)) == a + b + d + e
  {
  }

  lemma CnpjDigits(c: string)
    requires |c| == 14 && AllDigits(c)
    ensures var r := c[..2] + "." + c[2..5] + "." + c[5..8] + "/" + c[8..12] + "-" + c[12..];
            FitsMask(r, CnpjMask) && StripNonDigits(r) == c
  {
    CnpjFits(c);
    var a, b, d, e, f := c[..2], c[2..5], c[5..8], c[8..12], c[12..];
    CnpjStrip(a, b, d, e, f);
    assert a + b + d + e + f == c;
  }

  lemma CnpjFits(c: string)
    requires |c| == 14 && AllDigits(c)
    ensures FitsMask(c[..2] + "." + c[2..5] + "." + c[5..8] + "/" + c[8..12] + "-" + c[12..], CnpjMask)
  {
    var a, b, d, e, f := c[..2], c[2..5], c[5..8], c[8..12], c[12..];
    assert FitsMask(a, "dd") && FitsMask(b, "ddd") && FitsMask(d, "ddd") && FitsMask(e, "dddd") && FitsMask(f, "dd");
    FitsMaskAppend(a, "dd", ".", ".");
    FitsMaskAppend(a + ".", "dd.", b, "ddd");
    FitsMaskAppend(a + "." + b, "dd.ddd", ".", ".");
    FitsMaskAppend(a + "." + b + ".", "dd.ddd.", d, "ddd");
    FitsMaskAppend(a + "." + b + "." + d, "dd.ddd.ddd", "/", "/");
    FitsMaskAppend(a + "." + b + "." + d + "/", "dd.ddd.ddd/", e, "dddd");
    FitsMaskAppend(a + "." + b + "." + d + "/" + e, "dd.ddd.ddd/dddd", "-", "-");
    FitsMaskAppend(a + "." + b + "." + d + "/" + e + "-", "dd.ddd.ddd/dddd-", f, "dd");
  }

  lemma CnpjStrip(a: string, b: string, d: string, e: string, f: string)
    requires AllDigits(a) && AllDigits(b) && AllDigits(d) && AllDigits(e) && AllDigits(f)
    ensures StripNonDigits(a + "." + b + "." + d + "/" + e + "-" + f) == a + b + d + e + f
  {
    var t4 := e + ['-'] + f;
    assert StripNonDigits(t4) == e + f by {
      StripNonDigitsOfDigits(e);
      StripNonDigitsOfDigits(f);
      StripNonDigitsSeparator(e, '-', f);
    }
    var t3 := d + ['/'] + t4;
    assert StripNonDigits(t3) == d + (e + f) by {
      StripNonDigitsOfDigits(d);
      StripNonDigitsSeparator(d, '/', t4);
    }
    var t2 := b + ['.'] + t3;
    assert StripNonDigits(t2) == b + (d + (e + f)) by {
      StripNonDigitsOfDigits(b);
      StripNonDigitsSeparator(b, '.', t3);
    }
    var t1 := a + ['.'] + t2;
    assert StripNonDigits(t1) == a + (b + (d + (e + f))) by {
      StripNonDigitsOfDigits(a);
      StripNonDigitsSeparator(a, '.', t2);
    }
    CnpjRegroup(a, b, d, e, f);
  }

  lemma CnpjRegroup(a: string, b: string, d: string, e: string, f: string)
    ensures a + "." + b + "." + d + "/" + e + "-" + f == a + ['.'] + (b + ['.'] + (d + ['/'] + (e + ['-'] + f)))
    ensures a + (b + (d + (e + f))) == a + b + d + e + f
  {
  }

  /** No digit is lost, added or reordered by the mask. */
  lemma FormatDocumentKeepsDigits(document: string)
    ensures StripNonDigits(FormatDocument(document)) == StripNonDigits(document)
  {
  }

  /** Masking an already masked document changes nothing. */
  lemma FormatDocumentIdempotent(document: string)
    ensures FormatDocument(FormatDocument(document)) == FormatDocument(document)
  {
  }

  // ---------------------------------------------------------------------------
  // getDefaultTerms: the standard terms a new notice starts with

  /** The lines of the default terms text. */
  const DefaultTermsLines: seq<string> := [
    "NOTIFICAÇÃO EXTRAJUDICIAL",
    "",
    "Pelo presente instrumento, o CREDOR, acima qualificado, vem, por meio desta, NOTIFICAR EXTRAJUDICIALMENTE o DEVEDOR, também qualificado, dos seguintes fatos e fundamentos jurídicos:",
    "",
    "1. DO DÉBITO",
    "O DEVEDOR encontra-se em débito com o CREDOR, referente ao não pagamento de valores devidos conforme discriminado acima.",
    "",
    "2. DO PRAZO PARA PAGAMENTO",
    "Fica concedido ao DEVEDOR o prazo determinado nesta notificação, contados a partir do recebimento da presente, para que efetue o pagamento integral do débito, sob pena de:",
    "a) Inscrição do nome do devedor nos órgãos de proteção ao crédito (SPC, SERASA);",
    "b) Propositura de ação judicial de cobrança;",
    "c) Incidência de juros, multa e correção monetária conforme legislação vigente.",
    "",
    "3. DA FUNDAMENTAÇÃO LEGAL",
    "Esta notificação é realizada com base nos artigos 867 e seguintes do Código Civil Brasileiro e demais legislações aplicáveis.",
    "",
    "4. DAS CONSIDERAÇÕES FINAIS",
    "O CREDOR coloca-se à disposição para eventuais esclarecimentos e negociações amigáveis para quitação do débito, podendo ser contatado através dos dados informados acima.",
    "",
    "A presente notificação é enviada em cumprimento às formalidades legais, visando a solução amigável do débito antes da adoção de medidas judiciais."
  ]

  /** `getDefaultTerms()`: the default terms lines joined by line breaks. It
      opens with the notice heading and is never empty, so the required terms
      field of a fresh form is already filled in. */
  function DefaultTerms(): (t: string)
    ensures DefaultTermsLines[0] <= t && |t| >= 25
  {
    JoinPrefix(DefaultTermsLines, "\n");
    Join(DefaultTermsLines, "\n")
  }

}
