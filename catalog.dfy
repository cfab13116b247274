/** The catalog of adoptable pets shared by the list screen and the intake
    form, and the record a successful intake appends to it. */
module Catalogo {
  import opened Mascaras
  import opened Validacao

  /** One catalog entry, as the list and detail screens read it. */
  datatype Pet = Pet(id: string, nome: string, idade: string, sexo: string,
                     historia: string, foto: string)

  /** Photo used for a new record whose species is `"gato"`. */
  const FotoGato := "https://placekitten.com/200/200"
  /** Photo used for a new record of any other species. */
  const FotoCachorro := "https://place-puppy.com/200x200"

  // ---------------------------------------------------------------------
  // String(n) for a natural number n, and its inverse
  // ---------------------------------------------------------------------

  function DigitChar(k: nat): (c: char)
    requires k < 10
    ensures IsDigit(c)
  {
    (48 + k) as char
  }

  /** `String(n)`: the shortest decimal numeral of n. */
  function NatToString(n: nat): (r: string)
    ensures AllDigits(r) && |r| >= 1
    ensures r[0] == '0' ==> n == 0
  {
    if n < 10 then [DigitChar(n)]
    else NatToString(n / 10) + [DigitChar(n % 10)]
  }

  /** The number a decimal numeral denotes. */
  function DecimalValue(s: string): nat
    requires AllDigits(s)
  {
    if s == [] then 0
    else DecimalValue(s[..|s| - 1]) * 10 + (s[|s| - 1] as int - 48)
  }

  /** Reading back a numeral gives the number it was made from. */
  lemma {:induction false} DecimalValueOfNatToString(n: nat)
    ensures DecimalValue(NatToString(n)) == n
  {
    var r := NatToString(n);
    if n >= 10 {
      DecimalValueOfNatToString(n / 10);
      assert r[..|r| - 1] == NatToString(n / 10);
    } else {
      assert r[..|r| - 1] == [];
    }
  }

  /** Different numbers get different ids. */
  lemma NatToStringInjective(m: nat, n: nat)
    ensures NatToString(m) == NatToString(n) <==> m == n
  {
    DecimalValueOfNatToString(m);
    DecimalValueOfNatToString(n);
  }

  // ---------------------------------------------------------------------
  // The record built by handleSubmit
  // ---------------------------------------------------------------------

  /** The `novoPet` object built from the form fields when the catalog holds
      `count` pets. */
  function NovoPet(f: Fields, count: nat): (r: Pet)
    ensures |r.id| >= 1 && AllDigits(r.id) && r.id[0] != '0'
    ensures r.foto == FotoGato || r.foto == FotoCachorro
    ensures |r.historia| == 28 + |f.nome| + |f.porte|
  {
    Pet(NatToString(count + 1), f.nome, f.idade, f.sexo,
        "Pet cadastrado por " + f.nome + ", porte " + f.porte + ".",
        if f.especie == "gato" then FotoGato else FotoCachorro)
  }

  /** What the new record holds: the id denotes count + 1; name, age and sex
      are copied; the story embeds the name and the size; the kitten photo
      is chosen exactly for `"gato"`. */
  lemma NovoPetContents(f: Fields, count: nat)
    ensures var p := NovoPet(f, count);
      AllDigits(p.id) && DecimalValue(p.id) == count + 1 &&
      p.nome == f.nome && p.idade == f.idade && p.sexo == f.sexo &&
      |p.historia| == 28 + |f.nome| + |f.porte| &&
      p.historia[..19] == "Pet cadastrado por " &&
      p.historia[19..19 + |f.nome|] == f.nome &&
      p.historia[19 + |f.nome|..27 + |f.nome|] == ", porte " &&
      p.historia[27 + |f.nome|..27 + |f.nome| + |f.porte|] == f.porte &&
      p.historia[|p.historia| - 1] == '.' &&
      (p.foto == FotoGato <==> f.especie == "gato") &&
      (p.foto == FotoCachorro <==> f.especie != "gato")
  {
    DecimalValueOfNatToString(count + 1);
    var p := NovoPet(f, count);
    var h := "Pet cadastrado por " + f.nome + ", porte " + f.porte + ".";
    assert h[..19] == "Pet cadastrado por ";
    assert h[19..19 + |f.nome|] == f.nome;
    assert h[19 + |f.nome|..27 + |f.nome|] == ", porte ";
    assert h[27 + |f.nome|..27 + |f.nome| + |f.porte|] == f.porte;
    assert FotoGato != FotoCachorro by { assert FotoGato[13] != FotoCachorro[13]; }
  }

  /** The record built for a filled-in cat request when the catalog is
      empty: id "1", the copied fields, the story and the kitten photo. */
  lemma NovoPetExample()
    ensures NovoPet(Fields("Ana", "a@b.c", "(11) 98765-4321", "01/02/1990",
                           "p", "p", "gato", "femea", "adulto", "pequeno"), 0) ==
      Pet("1", "Ana", "adulto", "femea", "Pet cadastrado por Ana, porte pequeno.", FotoGato)
  {
    assert NatToString(1) == "1";
    assert "Pet cadastrado por " + "Ana" + ", porte " + "pequeno" + "." ==
      "Pet cadastrado por Ana, porte pequeno.";
  }

  // ---------------------------------------------------------------------
  // Ids of the catalog
  // ---------------------------------------------------------------------

  /** The ids are "1", "2", ..., in catalog order. */
  predicate IdsSequential(pets: seq<Pet>) {
    forall i :: 0 <= i < |pets| ==> pets[i].id == NatToString(i + 1)
  }

  /** Appending the record built from the current length keeps the ids
      sequential. */
  lemma AppendNovoPetKeepsIds(pets: seq<Pet>, f: Fields)
    requires IdsSequential(pets)
    ensures IdsSequential(pets + [NovoPet(f, |pets|)])
  {
    var ps := pets + [NovoPet(f, |pets|)];
    forall i | 0 <= i < |ps| ensures ps[i].id == NatToString(i + 1) {
      if i < |pets| {
        assert ps[i] == pets[i];
      }
    }
  }

  /** Sequential ids never collide. */
  lemma IdsSequentialUnique(pets: seq<Pet>, i: nat, j: nat)
    requires IdsSequential(pets)
    requires i < |pets| && j < |pets| && i != j
    ensures pets[i].id != pets[j].id
  {
    NatToStringInjective(i + 1, j + 1);
  }

  /** The stories of the three pets the application starts with. */
  const HistoriaRex := "Um cachorro muito brincalhão que adora correr no parque e brincar com bolinhas. É muito carinhoso e se dá bem com crianças e outros animais."
  const HistoriaLuna := "Gatinha carinhosa que adora dormir no colo e brincar com arranhadores. Muito tranquila e educada, usa perfeitamente a caixinha de areia."
  const HistoriaThor := "Cachorro de porte médio, muito protetor e leal. Adora longas caminhadas e é muito inteligente, aprende comandos rapidamente."

  /** The three pets the application starts with. */
  function InitialPets(): (r: seq<Pet>)
    ensures |r| == 3
  {
    [ Pet("1", "Rex", "2 anos", "Macho", HistoriaRex, "https://place-puppy.com/300x300"),
      Pet("2", "Luna", "1 ano", "Fêmea", HistoriaLuna, "https://placekitten.com/300/300"),
      Pet("3", "Thor", "3 anos", "Macho", HistoriaThor, "https://place-puppy.com/300x300") ]
  }

  /** The initial catalog is numbered "1".."3". */
  lemma InitialPetsIdsSequential()
    ensures IdsSequential(InitialPets())
  {
    var ps := InitialPets();
    assert |ps| == 3;
    assert NatToString(1) == "1" && NatToString(2) == "2" && NatToString(3) == "3";
    assert ps[0].id == "1" && ps[1].id == "2" && ps[2].id == "3";
    forall i | 0 <= i < 3 ensures ps[i].id == NatToString(i + 1) {
    }
  }
}
