/** The app controller: it owns the record collection, the edit target and
    the sort mode, and its handlers replace the collection with a new one
    built by `map`, spread-append or `filter`. */
module App {
  import opened Registros
  import Grafico

  /** The four values the sort buttons can set; the initial value is Recentes. */
  datatype Ordenacao = Recentes | MaiorEstudo | MaiorTrabalho | MaiorTreino

  /** The alert a save raises: the negative-value error, or one of the two
      success messages. */
  datatype StatusSalvar = ValoresNegativos | Atualizado | Salvo

  /** The comparator each sort mode selects; `recentes` falls through to the
      final branch, which orders by id. */
  function CriterioDe(o: Ordenacao): (c: Criterio)
    ensures o == Recentes <==> c == PorId
  {
    match o
    case MaiorEstudo => PorEstudo
    case MaiorTrabalho => PorTrabalho
    case MaiorTreino => PorTreino
    case Recentes => PorId
  }

  /** JavaScript truthiness of the edit target, which decides between the
      update and the append branch: null and the id 0 are both falsy. */
  function EmEdicao(editingId: Option<int>): (b: bool)
    ensures b ==> editingId.Some?
    ensures editingId == Some(0) ==> !b
  {
    editingId.Some? && editingId.value != 0
  }

  /** The save guard: it lets through exactly the values a record with
      non-negative hours can hold (id and date play no part in that). */
  function AlgumNegativo(estudo: real, trabalho: real, treino: real): (b: bool)
    ensures !b <==> NaoNegativo(Registro(0, estudo, trabalho, treino, ""))
  {
    estudo < 0.0 || trabalho < 0.0 || treino < 0.0
  }

  /** Deleting the record under edit and then saving takes the edit branch
      with an id nothing carries any more: the collection stays as the
      delete left it and no record is appended. */
  lemma {:induction false} SalvarAposRemoverEditado(s: seq<Registro>, id: int, estudo: real, trabalho: real, treino: real)
    ensures var restantes := RemoverPorId(s, id);
      AtualizarCampos(restantes, id, estudo, trabalho, treino) == restantes
  {
    var restantes := RemoverPorId(s, id);
    assert !TemId(restantes, id) by {
      forall i | 0 <= i < |restantes| ensures restantes[i].id != id {
        assert restantes[i] in restantes;
      }
    }
    AtualizarCamposAusente(restantes, id, estudo, trabalho, treino);
  }

  /** The component's state. While `carregando` holds only the spinner is
      rendered, so the handlers and the derived views are reachable only
      once the startup load has finished. */
  class AppState {
    var registros: seq<Registro>
    var carregando: bool
    var editingId: Option<int>
    var ordenacao: Ordenacao

    /** The state before the stored records have been loaded. */
    constructor ()
      ensures registros == [] && carregando && editingId == None && ordenacao == Recentes
    {
      registros := [];
      carregando := true;
      editingId := None;
      ordenacao := Recentes;
    }

    /** The one-time startup load: the collection becomes what the store returned. */
    method ConcluirCarga(dados: seq<Registro>)
      modifies this
      ensures registros == dados && !carregando
      ensures editingId == old(editingId) && ordenacao == old(ordenacao)
    {
      registros := dados;
      carregando := false;
    }

    /** Save the parsed form values: reject any negative value; otherwise
        overwrite the fields of the records carrying the edit target, or
        append a new record with the given timestamp id and date; then clear
        the edit target. */
    method HandleSave(estudo: real, trabalho: real, treino: real, agora: int, hoje: string)
      returns (status: StatusSalvar)
      requires !carregando
      modifies this
      ensures AlgumNegativo(estudo, trabalho, treino) ==>
        status == ValoresNegativos && registros == old(registros) && editingId == old(editingId)
      ensures !AlgumNegativo(estudo, trabalho, treino) && EmEdicao(old(editingId)) ==>
        status == Atualizado &&
        registros == AtualizarCampos(old(registros), old(editingId).value, estudo, trabalho, treino)
      ensures !AlgumNegativo(estudo, trabalho, treino) && !EmEdicao(old(editingId)) ==>
        status == Salvo && registros == old(registros) + [Registro(agora, estudo, trabalho, treino, hoje)]
      ensures !AlgumNegativo(estudo, trabalho, treino) ==> editingId == None
      ensures TodosNaoNegativos(old(registros)) ==> TodosNaoNegativos(registros)
      ensures IdsUnicos(old(registros)) && (forall r :: r in old(registros) ==> r.id != agora) ==>
        IdsUnicos(registros)
      ensures ordenacao == old(ordenacao) && carregando == old(carregando)
    {
      if AlgumNegativo(estudo, trabalho, treino) {
        return ValoresNegativos;
      }
      if EmEdicao(editingId) {
        if TodosNaoNegativos(registros) {
          AtualizarCamposNaoNegativos(registros, editingId.value, estudo, trabalho, treino);
        }
        if IdsUnicos(registros) {
          AtualizarCamposIdsUnicos(registros, editingId.value, estudo, trabalho, treino);
        }
        registros := AtualizarCampos(registros, editingId.value, estudo, trabalho, treino);
        status := Atualizado;
      } else {
        var novo := Registro(agora, estudo, trabalho, treino, hoje);
        if IdsUnicos(registros) && forall r :: r in registros ==> r.id != agora {
          IdsUnicosAnexar(registros, novo);
        }
        registros := registros + [novo];
        status := Salvo;
      }
      editingId := None;
    }

    /** Delete every record carrying `id`; the edit target is left as it is. */
    method HandleDelete(id: int)
      requires !carregando
      modifies this
      ensures registros == RemoverPorId(old(registros), id)
      ensures editingId == old(editingId) && ordenacao == old(ordenacao) && carregando == old(carregando)
      ensures TodosNaoNegativos(old(registros)) ==> TodosNaoNegativos(registros)
      ensures IdsUnicos(old(registros)) ==> IdsUnicos(registros)
    {
      if IdsUnicos(registros) {
        RemoverPorIdIdsUnicos(registros, id);
      }
      registros := RemoverPorId(registros, id);
    }

    method HandleEdit(registro: Registro)
      requires !carregando
      modifies this
      ensures editingId == Some(registro.id)
      ensures registros == old(registros) && ordenacao == old(ordenacao) && carregando == old(carregando)
    {
      editingId := Some(registro.id);
    }

    method HandleCancel()
      requires !carregando
      modifies this
      ensures editingId == None
      ensures registros == old(registros) && ordenacao == old(ordenacao) && carregando == old(carregando)
    {
      editingId := None;
    }

    /** One of the four sort buttons. */
    method SetOrdenacao(o: Ordenacao)
      requires !carregando
      modifies this
      ensures ordenacao == o
      ensures registros == old(registros) && editingId == old(editingId) && carregando == old(carregando)
    {
      ordenacao := o;
    }

    /** The list as displayed: a sorted copy of the collection, ordered by
        the field the sort mode selects, ties kept in stored order. The
        stored collection is only read. */
    method RegistrosExibidos() returns (exibidos: seq<Registro>)
      requires !carregando
      ensures multiset(exibidos) == multiset(registros)
      ensures OrdenadoPor(exibidos, CriterioDe(ordenacao))
      ensures forall k :: ComChave(exibidos, CriterioDe(ordenacao), k) == ComChave(registros, CriterioDe(ordenacao), k)
    {
      exibidos := OrdenarPor(registros, CriterioDe(ordenacao));
      OrdenarPorCorreto(registros, CriterioDe(ordenacao));
      forall k ensures ComChave(exibidos, CriterioDe(ordenacao), k) == ComChave(registros, CriterioDe(ordenacao), k) {
        OrdenarPorEstavel(registros, CriterioDe(ordenacao), k);
      }
    }

    /** The record handed to the form: the first one carrying the edit
        target, or none. */
    method RegistroEmEdicao() returns (r: Option<Registro>)
      requires !carregando
      ensures editingId.None? ==> r.None?
      ensures editingId.Some? ==> (r.None? <==> !TemId(registros, editingId.value))
      ensures r.Some? ==>
                editingId.Some? &&
                exists i :: 0 <= i < |registros| && registros[i] == r.value && registros[i].id == editingId.value &&
                            forall j :: 0 <= j < i ==> registros[j].id != editingId.value
    {
      if editingId.None? {
        r := None;
      } else {
        r := BuscarPorId(registros, editingId.value);
      }
    }

    /** The chart fed with the displayed list; with unique ids it equals the
        chart of the stored collection, whatever the sort mode. */
    method GraficoExibido(rotulo: int -> string) returns (v: Grafico.Vista)
      requires !carregando
      ensures v.Aviso? <==> |registros| < 2
      ensures IdsUnicos(registros) ==> v == Grafico.Renderizar(Some(registros), rotulo)
    {
      var exibidos := RegistrosExibidos();
      v := Grafico.Renderizar(Some(exibidos), rotulo);
      assert |exibidos| == |multiset(exibidos)| == |registros|;
      if IdsUnicos(registros) {
        Grafico.RenderizarIgnoraOrdem(exibidos, registros, rotulo);
      }
    }
  }

  lemma {:induction false} IdsUnicosAnexar(s: seq<Registro>, novo: Registro)
    requires IdsUnicos(s) && forall r :: r in s ==> r.id != novo.id
    ensures IdsUnicos(s + [novo])
  {
    var t := s + [novo];
    forall i, j | 0 <= i < |t| && 0 <= j < |t| && i != j ensures t[i].id != t[j].id {
      if i < |s| && j < |s| {
        assert t[i] == s[i] && t[j] == s[j];
      } else if i < |s| {
        assert t[i] in s;
      } else {
        assert t[j] in s;
      }
    }
  }

  /** Edit a record, delete it, then save: the save reports an update, the
      collection stays as the delete left it and the typed values are lost. */
  method EditarRemoverSalvar(dados: seq<Registro>, alvo: Registro, estudo: real, trabalho: real, treino: real, agora: int, hoje: string)
    returns (status: StatusSalvar, aposRemover: seq<Registro>, aposSalvar: seq<Registro>)
    requires alvo.id != 0
    requires !AlgumNegativo(estudo, trabalho, treino)
    ensures status == Atualizado
    ensures aposRemover == RemoverPorId(dados, alvo.id)
    ensures aposSalvar == aposRemover
  {
    var app := new AppState();
    app.ConcluirCarga(dados);
    app.HandleEdit(alvo);
    app.HandleDelete(alvo.id);
    aposRemover := app.registros;
    status := app.HandleSave(estudo, trabalho, treino, agora, hoje);
    SalvarAposRemoverEditado(dados, alvo.id, estudo, trabalho, treino);
    aposSalvar := app.registros;
  }

  /** A record whose id is 0 cannot be edited: the edit target is falsy, so
      the save appends a new record instead of updating it. */
  method EditarIdZero(dados: seq<Registro>, alvo: Registro, estudo: real, trabalho: real, treino: real, agora: int, hoje: string)
    returns (status: StatusSalvar, depois: seq<Registro>)
    requires alvo.id == 0
    requires !AlgumNegativo(estudo, trabalho, treino)
    ensures status == Salvo
    ensures depois == dados + [Registro(agora, estudo, trabalho, treino, hoje)]
  {
    var app := new AppState();
    app.ConcluirCarga(dados);
    app.HandleEdit(alvo);
    status := app.HandleSave(estudo, trabalho, treino, agora, hoje);
    depois := app.registros;
  }

  /** Start empty; save (2, 4, 1); try to save a negative value; edit the
      new record and save (3, 4, 1); delete it. */
  method CenarioExemplo(t1: int, hoje: string)
    returns (s1: StatusSalvar, r1: seq<Registro>, s2: StatusSalvar, r2: seq<Registro>,
             s3: StatusSalvar, r3: seq<Registro>, r4: seq<Registro>)
    requires t1 != 0
    ensures s1 == Salvo && r1 == [Registro(t1, 2.0, 4.0, 1.0, hoje)]
    ensures s2 == ValoresNegativos && r2 == r1
    ensures s3 == Atualizado && r3 == [Registro(t1, 3.0, 4.0, 1.0, hoje)]
    ensures r4 == []
  {
    var app := new AppState();
    app.ConcluirCarga([]);
    s1 := app.HandleSave(2.0, 4.0, 1.0, t1, hoje);
    r1 := app.registros;
    s2 := app.HandleSave(-1.0, 0.0, 0.0, t1 + 1, hoje);
    r2 := app.registros;
    app.HandleEdit(r1[0]);
    s3 := app.HandleSave(3.0, 4.0, 1.0, t1 + 2, hoje);
    r3 := app.registros;
    app.HandleDelete(t1);
    r4 := app.registros;
  }
}
