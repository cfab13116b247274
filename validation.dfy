/** Validity flags of the intake form: the e-mail pattern, the password
    confirmation and the conjunction that enables the submit button. */
module Validacao {
  import opened Mascaras

  /** The characters matched by the JavaScript class `\s`: the ASCII
      controls TAB, LF, VT, FF, CR, the space, and the Unicode space
      separators, line/paragraph separators and the byte-order mark. */
  predicate IsWhitespace(c: char)
    ensures IsWhitespace(c) ==> c != '@' && c != '.' && !IsDigit(c)
    ensures c == ' ' || c == '\t' || c == '\n' ==> IsWhitespace(c)
  {
    ('\t' <= c <= '\r') || c == ' ' || c == '\U{00A0}' || c == '\U{1680}' ||
    ('\U{2000}' <= c <= '\U{200A}') || c == '\U{2028}' || c == '\U{2029}' ||
    c == '\U{202F}' || c == '\U{205F}' || c == '\U{3000}' || c == '\U{FEFF}'
  }

  // ---------------------------------------------------------------------
  // emailValido = /\S+@\S+\.\S+/.test(email)
  // ---------------------------------------------------------------------

  /** `s[lo..hi]` is a non-empty run of `\S` characters (what `\S+` matches). */
  predicate NonSpaceRun(s: string, lo: int, hi: int) {
    0 <= lo < hi <= |s| && forall k :: lo <= k < hi ==> !IsWhitespace(s[k])
  }

  /** The pattern `\S+@\S+\.\S+` matches `s[a..e]` with the `@` at `at` and
      the escaped dot at `dot`. */
  ghost predicate MatchSpans(s: string, a: int, at: int, dot: int, e: int) {
    NonSpaceRun(s, a, at) && at < |s| && s[at] == '@' &&
    NonSpaceRun(s, at + 1, dot) && dot < |s| && s[dot] == '.' &&
    NonSpaceRun(s, dot + 1, e)
  }

  /** `RegExp.prototype.test` of an unanchored pattern: some substring
      matches. */
  ghost predicate RegexMatch(s: string) {
    exists a, at, dot, e :: MatchSpans(s, a, at, dot, e)
  }

  /** A match anchored on an `@` at `at` and a `.` at `dot`, each outer `\S+`
      shrunk to the single character next to its delimiter. */
  predicate EmailAnchor(s: string, at: int, dot: int) {
    1 <= at && at + 2 <= dot && dot + 2 <= |s| &&
    s[at] == '@' && s[dot] == '.' &&
    !IsWhitespace(s[at - 1]) && !IsWhitespace(s[dot + 1]) &&
    forall k :: at < k < dot ==> !IsWhitespace(s[k])
  }

  /** `emailValido`: the computable form of the regex test. */
  predicate EmailValido(s: string)
    ensures EmailValido(s) ==> |s| >= 5
  {
    exists at, dot | 0 <= at < |s| && 0 <= dot < |s| :: EmailAnchor(s, at, dot)
  }

  /** The computable test agrees with the regex semantics, both ways. */
  lemma EmailValidoIffRegex(s: string)
    ensures EmailValido(s) <==> RegexMatch(s)
  {
    if EmailValido(s) {
      var at, dot :| 0 <= at < |s| && 0 <= dot < |s| && EmailAnchor(s, at, dot);
      assert MatchSpans(s, at - 1, at, dot, dot + 2);
    }
    if RegexMatch(s) {
      var a, at, dot, e :| MatchSpans(s, a, at, dot, e);
      assert EmailAnchor(s, at, dot);
    }
  }

  /** The test is unanchored: text around a valid address keeps it valid. */
  lemma EmailValidoInContext(p: string, s: string, q: string)
    requires EmailValido(s)
    ensures EmailValido(p + s + q)
  {
    var at, dot :| 0 <= at < |s| && 0 <= dot < |s| && EmailAnchor(s, at, dot);
    var t := p + s + q;
    forall k | 0 <= k < |s| ensures t[|p| + k] == s[k] { }
    assert EmailAnchor(t, |p| + at, |p| + dot);
  }

  /** An address without `@`, or shorter than five characters, is refused. */
  lemma EmailValidoNeeds(s: string)
    requires EmailValido(s)
    ensures |s| >= 5
    ensures exists i :: 0 <= i < |s| && s[i] == '@'
  {
    var at, dot :| 0 <= at < |s| && 0 <= dot < |s| && EmailAnchor(s, at, dot);
  }

  lemma EmailValidoExamples()
    ensures EmailValido("a@b.c")
    ensures !EmailValido("a@b")
    ensures !EmailValido("")
    ensures !EmailValido("a @b.c")
  {
    assert EmailAnchor("a@b.c", 1, 3);
    var bad := "a @b.c";
    forall at, dot | 0 <= at < |bad| && 0 <= dot < |bad|
      ensures !EmailAnchor(bad, at, dot)
    {
    }
  }

  // ---------------------------------------------------------------------
  // senhaConfere = senha !== "" && senha === confSenha
  // ---------------------------------------------------------------------

  predicate SenhaConfere(senha: string, confSenha: string)
    ensures senha == "" ==> !SenhaConfere(senha, confSenha)
    ensures SenhaConfere(senha, confSenha) ==> confSenha != "" && |confSenha| == |senha|
  {
    senha != "" && senha == confSenha
  }

  /** An empty password never matches, not even an empty confirmation;
      otherwise matching is plain equality. */
  lemma SenhaConfereCases(senha: string, confSenha: string)
    ensures senha == "" ==> !SenhaConfere(senha, confSenha)
    ensures senha != "" ==> (SenhaConfere(senha, confSenha) <==> senha == confSenha)
    ensures SenhaConfere(senha, confSenha) ==> SenhaConfere(confSenha, senha)
  {
  }

  // ---------------------------------------------------------------------
  // formValido
  // ---------------------------------------------------------------------

  /** The ten `useState` strings of the form, as one value. */
  datatype Fields = Fields(
    nome: string, email: string, celular: string, dataNasc: string,
    senha: string, confSenha: string,
    especie: string, sexo: string, idade: string, porte: string)

  /** Every field set to `""`: the initial state and the state after a
      submit. */
  const Vazio := Fields("", "", "", "", "", "", "", "", "", "")

  /** `formValido`: the condition that enables the "Quero Adotar!" button
      (a JavaScript `&&` chain of truthy values; `""` is falsy). */
  predicate FormValido(f: Fields)
    ensures FormValido(f) ==> f != Vazio && |f.email| >= 5 && f.confSenha != ""
  {
    f.nome != "" &&
    EmailValido(f.email) &&
    |f.celular| == 15 &&
    |f.dataNasc| == 10 &&
    SenhaConfere(f.senha, f.confSenha) &&
    f.especie != "" && f.sexo != "" && f.idade != "" && f.porte != ""
  }

  /** Any single failing check disables the button. */
  lemma FormValidoEachCheck(f: Fields)
    ensures f.nome == "" ==> !FormValido(f)
    ensures !EmailValido(f.email) ==> !FormValido(f)
    ensures |f.celular| != 15 ==> !FormValido(f)
    ensures |f.dataNasc| != 10 ==> !FormValido(f)
    ensures !SenhaConfere(f.senha, f.confSenha) ==> !FormValido(f)
    ensures f.especie == "" || f.sexo == "" || f.idade == "" || f.porte == "" ==> !FormValido(f)
  {
  }

  /** The cleared form is never submittable. */
  lemma VazioNotValido()
    ensures !FormValido(Vazio)
  {
  }

  /** With the phone and the date entered through their masks, the button
      is enabled only once 11 phone digits and 8 date digits were typed. */
  lemma FormValidoNeedsFullMasks(f: Fields, celularTyped: string, dataTyped: string)
    requires f.celular == FormatCelular(celularTyped)
    requires f.dataNasc == FormatDate(dataTyped)
    requires FormValido(f)
    ensures |OnlyDigits(celularTyped)| >= 11 && |OnlyDigits(dataTyped)| >= 8
    ensures |OnlyDigits(f.celular)| == 11 && |OnlyDigits(f.dataNasc)| == 8
  {
    FormatCelularLength(celularTyped);
    FormatCelularDigits(celularTyped);
    FormatDateLength(dataTyped);
    FormatDateDigits(dataTyped);
  }

  /** A filled-in example form is submittable. */
  lemma FormValidoExample()
    ensures FormValido(Fields("Ana", "a@b.c", "(11) 98765-4321", "01/02/1990",
                              "p", "p", "gato", "femea", "adulto", "pequeno"))
  {
    EmailValidoExamples();
  }
}
