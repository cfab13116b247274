/** The intake screen (`CadastroScreen`): ten form fields held in component
    state, the shared pet catalog, the keystroke and button handlers, and
    the submit action. */
module Cadastro {
  import opened Mascaras
  import opened Validacao
  import opened Catalogo

  // ---------------------------------------------------------------------
  // Selector buttons: each button sets its field to one fixed value
  // ---------------------------------------------------------------------

  /** The two "Espécie" buttons. */
  datatype Especie = Cachorro | Gato {
    function Value(): (r: string)
      ensures r in {"cachorro", "gato"}
    {
      match this
      case Cachorro => "cachorro"
      case Gato => "gato"
    }
  }

  /** The two "Sexo" buttons. */
  datatype Sexo = Macho | Femea {
    function Value(): (r: string)
      ensures r in {"macho", "femea"}
    {
      match this
      case Macho => "macho"
      case Femea => "femea"
    }
  }

  /** The three "Idade" buttons. */
  datatype Idade = Filhote | Adulto | Idoso {
    function Value(): (r: string)
      ensures r in {"filhote", "adulto", "idoso"}
    {
      match this
      case Filhote => "filhote"
      case Adulto => "adulto"
      case Idoso => "idoso"
    }
  }

  /** The three "Porte" buttons. */
  datatype Porte = Pequeno | Medio | Grande {
    function Value(): (r: string)
      ensures r in {"pequeno", "medio", "grande"}
    {
      match this
      case Pequeno => "pequeno"
      case Medio => "medio"
      case Grande => "grande"
    }
  }

  /** Distinct buttons of one selector set distinct values, so the stored
      value tells which button was pressed last. */
  lemma SelectorValuesDistinct(e1: Especie, e2: Especie, s1: Sexo, s2: Sexo,
                               i1: Idade, i2: Idade, p1: Porte, p2: Porte)
    ensures e1.Value() == e2.Value() ==> e1 == e2
    ensures s1.Value() == s2.Value() ==> s1 == s2
    ensures i1.Value() == i2.Value() ==> i1 == i2
    ensures p1.Value() == p2.Value() ==> p1 == p2
  {
  }

  // ---------------------------------------------------------------------
  // What every reachable form state satisfies
  // ---------------------------------------------------------------------

  /** The masked fields hold a mask's own output, and each selector field is
      empty or one of its buttons' values. */
  predicate FieldsOk(f: Fields) {
    f.celular == FormatCelular(f.celular) &&
    f.dataNasc == FormatDate(f.dataNasc) &&
    f.especie in {"", "cachorro", "gato"} &&
    f.sexo in {"", "macho", "femea"} &&
    f.idade in {"", "filhote", "adulto", "idoso"} &&
    f.porte in {"", "pequeno", "medio", "grande"}
  }

  /** The cleared form is a reachable state. */
  lemma VazioOk()
    ensures FieldsOk(Vazio)
  {
  }

  /** Whatever was typed, storing the masked text keeps the mask invariant. */
  lemma MaskedInputOk(f: Fields, celularTyped: string, dataTyped: string)
    requires FieldsOk(f)
    ensures FieldsOk(f.(celular := FormatCelular(celularTyped)))
    ensures FieldsOk(f.(dataNasc := FormatDate(dataTyped)))
  {
    FormatCelularIdempotent(celularTyped);
    FormatDateIdempotent(dataTyped);
  }

  /** In a reachable state with the button enabled, every selector holds a
      button's value, the phone carries 11 digits and the date 8. */
  lemma SubmittableState(f: Fields)
    requires FieldsOk(f) && FormValido(f)
    ensures f.especie in {"cachorro", "gato"} && f.sexo in {"macho", "femea"}
    ensures f.idade in {"filhote", "adulto", "idoso"}
    ensures f.porte in {"pequeno", "medio", "grande"}
    ensures |OnlyDigits(f.celular)| == 11 && |OnlyDigits(f.dataNasc)| == 8
  {
    FormValidoNeedsFullMasks(f, f.celular, f.dataNasc);
  }

  /** The photo of a record submitted from a reachable state: the kitten for
      `"gato"`, the puppy for `"cachorro"`. */
  lemma SubmittedFoto(f: Fields, count: nat)
    requires FieldsOk(f) && FormValido(f)
    ensures NovoPet(f, count).foto == (if f.especie == "cachorro" then FotoCachorro else FotoGato)
  {
    SubmittableState(f);
    NovoPetContents(f, count);
  }

  // ---------------------------------------------------------------------
  // The shared catalog and the form
  // ---------------------------------------------------------------------

  /** The `pets` state of the application, shared with the list screen. */
  class PetCatalog {
    var pets: seq<Pet>

    constructor ()
      ensures pets == InitialPets() && IdsSequential(pets)
    {
      pets := InitialPets();
      InitialPetsIdsSequential();
    }

    /** `setPets([...pets, novoPet])`. */
    method Append(p: Pet)
      modifies this
      ensures pets == old(pets) + [p]
    {
      pets := pets + [p];
    }
  }

  /** `CadastroScreen`: its ten state variables and the catalog it was
      given. */
  class CadastroForm {
    var nome: string
    var email: string
    var celular: string
    var dataNasc: string
    var senha: string
    var confSenha: string
    var especie: string
    var sexo: string
    var idade: string
    var porte: string
    const catalog: PetCatalog

    /** The current field values. */
    function Snapshot(): Fields
      reads this
    {
      Fields(nome, email, celular, dataNasc, senha, confSenha, especie, sexo, idade, porte)
    }

    ghost predicate Valid()
      reads this
    {
      FieldsOk(Snapshot())
    }

    /** `formValido` as the screen derives it on every render. */
    predicate Submittable()
      reads this
      ensures Submittable() ==> nome != "" && |celular| == 15 && |dataNasc| == 10 &&
                                 senha == confSenha && senha != ""
      ensures Submittable() ==> Snapshot() != Vazio
    {
      FormValido(Snapshot())
    }

    /** Every `useState("")` starts empty. */
    constructor (catalog: PetCatalog)
      ensures Snapshot() == Vazio && this.catalog == catalog
      ensures Valid() && !Submittable()
    {
      nome, email, celular, dataNasc := "", "", "", "";
      senha, confSenha := "", "";
      especie, sexo, idade, porte := "", "", "", "";
      this.catalog := catalog;
      VazioNotValido();
    }

    /** `onChangeText={setNome}`: stored as typed. */
    method SetNome(t: string)
      requires Valid()
      modifies this`nome
      ensures Snapshot() == old(Snapshot()).(nome := t) && Valid()
    {
      nome := t;
    }

    /** `onChangeText={setEmail}`: stored as typed. */
    method SetEmail(t: string)
      requires Valid()
      modifies this`email
      ensures Snapshot() == old(Snapshot()).(email := t) && Valid()
    {
      email := t;
    }

    /** `onChangeText={(t) => setCelular(formatCelular(t))}`. */
    method OnChangeCelular(t: string)
      requires Valid()
      modifies this`celular
      ensures Snapshot() == old(Snapshot()).(celular := FormatCelular(t)) && Valid()
    {
      MaskedInputOk(Snapshot(), t, "");
      celular := FormatCelular(t);
    }

    /** `onChangeText={(t) => setDataNasc(formatDate(t))}`. */
    method OnChangeDataNasc(t: string)
      requires Valid()
      modifies this`dataNasc
      ensures Snapshot() == old(Snapshot()).(dataNasc := FormatDate(t)) && Valid()
    {
      MaskedInputOk(Snapshot(), "", t);
      dataNasc := FormatDate(t);
    }

    /** `onChangeText={setSenha}`: stored as typed. */
    method SetSenha(t: string)
      requires Valid()
      modifies this`senha
      ensures Snapshot() == old(Snapshot()).(senha := t) && Valid()
    {
      senha := t;
    }

    /** `onChangeText={setConfSenha}`: stored as typed. */
    method SetConfSenha(t: string)
      requires Valid()
      modifies this`confSenha
      ensures Snapshot() == old(Snapshot()).(confSenha := t) && Valid()
    {
      confSenha := t;
    }

    /** A press on one of the "Espécie" buttons. */
    method PressEspecie(b: Especie)
      requires Valid()
      modifies this`especie
      ensures Snapshot() == old(Snapshot()).(especie := b.Value()) && Valid()
    {
      especie := b.Value();
    }

    /** A press on one of the "Sexo" buttons. */
    method PressSexo(b: Sexo)
      requires Valid()
      modifies this`sexo
      ensures Snapshot() == old(Snapshot()).(sexo := b.Value()) && Valid()
    {
      sexo := b.Value();
    }

    /** A press on one of the "Idade" buttons. */
    method PressIdade(b: Idade)
      requires Valid()
      modifies this`idade
      ensures Snapshot() == old(Snapshot()).(idade := b.Value()) && Valid()
    {
      idade := b.Value();
    }

    /** A press on one of the "Porte" buttons. */
    method PressPorte(b: Porte)
      requires Valid()
      modifies this`porte
      ensures Snapshot() == old(Snapshot()).(porte := b.Value()) && Valid()
    {
      porte := b.Value();
    }

    /** `handleSubmit`, reachable only through the enabled button: append
        the new record to the catalog and clear all ten fields. */
    method HandleSubmit()
      requires Valid() && Submittable()
      modifies this, catalog
      ensures catalog.pets == old(catalog.pets) + [NovoPet(old(Snapshot()), |old(catalog.pets)|)]
      ensures Snapshot() == Vazio && Valid() && !Submittable()
      ensures IdsSequential(old(catalog.pets)) ==> IdsSequential(catalog.pets)
    {
      // Stated up front, this keeps the frame reasoning below cheap.
      assert catalog as object != this as object;
      var f := Snapshot();
      var pets := catalog.pets;
      var novoPet := NovoPet(f, |pets|);
      if IdsSequential(pets) {
        AppendNovoPetKeepsIds(pets, f);
      }
      catalog.Append(novoPet);
      Clear();
      assert catalog.pets == pets + [novoPet];
      VazioOk();
      VazioNotValido();
    }

    /** The ten `set...("")` calls that end `handleSubmit`. */
    method Clear()
      modifies this
      ensures Snapshot() == Vazio
    {
      nome := ""; email := ""; celular := ""; dataNasc := "";
      senha := ""; confSenha := ""; especie := ""; sexo := ""; idade := ""; porte := "";
    }
  }
}
