/** The record collection of the app: one logged day of study, work and
    training hours, and the list operations the controller builds its new
    collections with (update by `map`, delete by `filter`, lookup by `find`,
    and the stable comparator sort used for display and for the chart). */
module Registros {

  datatype Option<T> = None | Some(value: T)

  /** One log entry. `id` is the creation timestamp, `data` the display date
      fixed at creation; the three hour fields are plain numbers. */
  datatype Registro = Registro(id: int, estudo: real, trabalho: real, treino: real, data: string)

  /** The field a comparator `(a, b) => a.f - b.f` orders by. */
  datatype Criterio = PorId | PorEstudo | PorTrabalho | PorTreino

  function Chave(r: Registro, c: Criterio): real
  {
    match c
    case PorId => r.id as real
    case PorEstudo => r.estudo
    case PorTrabalho => r.trabalho
    case PorTreino => r.treino
  }

  predicate NaoNegativo(r: Registro)
  {
    r.estudo >= 0.0 && r.trabalho >= 0.0 && r.treino >= 0.0
  }

  /** Every stored record carries non-negative hours. */
  predicate TodosNaoNegativos(s: seq<Registro>)
  {
    forall i :: 0 <= i < |s| ==> NaoNegativo(s[i])
  }

  /** No two positions of the collection share an id. */
  predicate IdsUnicos(s: seq<Registro>)
  {
    forall i, j :: 0 <= i < |s| && 0 <= j < |s| && i != j ==> s[i].id != s[j].id
  }

  predicate TemId(s: seq<Registro>, id: int)
  {
    exists i :: 0 <= i < |s| && s[i].id == id
  }

  // ---------------------------------------------------------------------------
  // Update: every record carrying the edit target gets the three new values
  // ---------------------------------------------------------------------------

  function AtualizarCampos(s: seq<Registro>, id: int, estudo: real, trabalho: real, treino: real): (r: seq<Registro>)
    ensures |r| == |s|
    ensures forall k :: 0 <= k < |r| ==> r[k].id == s[k].id && r[k].data == s[k].data
  {
    if s == [] then []
    else
      var cabeca := if s[0].id == id then s[0].(estudo := estudo, trabalho := trabalho, treino := treino) else s[0];
      [cabeca] + AtualizarCampos(s[1..], id, estudo, trabalho, treino)
  }

  /** Position by position: a matching record gets the three new values and
      keeps its id and date; every other record is left as it was. */
  lemma {:induction false} AtualizarCamposEm(s: seq<Registro>, id: int, estudo: real, trabalho: real, treino: real, k: nat)
    requires k < |s|
    ensures var r := AtualizarCampos(s, id, estudo, trabalho, treino);
      r[k].id == s[k].id && r[k].data == s[k].data &&
      (s[k].id == id ==> r[k].estudo == estudo && r[k].trabalho == trabalho && r[k].treino == treino) &&
      (s[k].id != id ==> r[k] == s[k])
  {
    if k > 0 {
      AtualizarCamposEm(s[1..], id, estudo, trabalho, treino, k - 1);
    }
  }

  /** Editing an id that no record carries leaves the collection as it was. */
  lemma {:induction false} AtualizarCamposAusente(s: seq<Registro>, id: int, estudo: real, trabalho: real, treino: real)
    requires !TemId(s, id)
    ensures AtualizarCampos(s, id, estudo, trabalho, treino) == s
  {
    if s != [] {
      assert s[0].id != id;
      assert !TemId(s[1..], id) by {
        forall i | 0 <= i < |s[1..]| ensures s[1..][i].id != id {
          assert s[1..][i] == s[i + 1];
        }
      }
      AtualizarCamposAusente(s[1..], id, estudo, trabalho, treino);
    }
  }

  /** Applying the same edit twice is the same as applying it once. */
  lemma {:induction false} AtualizarCamposIdempotente(s: seq<Registro>, id: int, estudo: real, trabalho: real, treino: real)
    ensures var r := AtualizarCampos(s, id, estudo, trabalho, treino);
      AtualizarCampos(r, id, estudo, trabalho, treino) == r
  {
    if s != [] {
      AtualizarCamposIdempotente(s[1..], id, estudo, trabalho, treino);
    }
  }

  /** The edit keeps the non-negative invariant when the new values are non-negative. */
  lemma {:induction false} AtualizarCamposNaoNegativos(s: seq<Registro>, id: int, estudo: real, trabalho: real, treino: real)
    requires TodosNaoNegativos(s) && estudo >= 0.0 && trabalho >= 0.0 && treino >= 0.0
    ensures TodosNaoNegativos(AtualizarCampos(s, id, estudo, trabalho, treino))
  {
    var r := AtualizarCampos(s, id, estudo, trabalho, treino);
    forall k | 0 <= k < |r| ensures NaoNegativo(r[k]) {
      AtualizarCamposEm(s, id, estudo, trabalho, treino, k);
    }
  }

  /** The edit never changes an id, so it keeps ids unique. */
  lemma {:induction false} AtualizarCamposIdsUnicos(s: seq<Registro>, id: int, estudo: real, trabalho: real, treino: real)
    requires IdsUnicos(s)
    ensures IdsUnicos(AtualizarCampos(s, id, estudo, trabalho, treino))
  {
    var r := AtualizarCampos(s, id, estudo, trabalho, treino);
    forall k | 0 <= k < |r| ensures r[k].id == s[k].id {
      AtualizarCamposEm(s, id, estudo, trabalho, treino, k);
    }
  }

  // ---------------------------------------------------------------------------
  // Delete: keep the records whose id differs from the deleted one
  // ---------------------------------------------------------------------------

  function RemoverPorId(s: seq<Registro>, id: int): (r: seq<Registro>)
    ensures |r| <= |s|
    ensures forall x :: x in r <==> x in s && x.id != id
  {
    if s == [] then []
    else if s[0].id == id then RemoverPorId(s[1..], id)
    else [s[0]] + RemoverPorId(s[1..], id)
  }

  /** Deleting distributes over concatenation: the survivors keep their order. */
  lemma {:induction false} RemoverPorIdConcat(a: seq<Registro>, b: seq<Registro>, id: int)
    ensures RemoverPorId(a + b, id) == RemoverPorId(a, id) + RemoverPorId(b, id)
  {
    if a == [] {
      assert a + b == b;
    } else {
      assert (a + b)[0] == a[0];
      assert (a + b)[1..] == a[1..] + b;
      RemoverPorIdConcat(a[1..], b, id);
    }
  }

  /** Deleting an id that no record carries is a no-op. */
  lemma {:induction false} RemoverPorIdAusente(s: seq<Registro>, id: int)
    requires !TemId(s, id)
    ensures RemoverPorId(s, id) == s
  {
    if s != [] {
      assert s[0].id != id;
      assert !TemId(s[1..], id) by {
        forall i | 0 <= i < |s[1..]| ensures s[1..][i].id != id {
          assert s[1..][i] == s[i + 1];
        }
      }
      RemoverPorIdAusente(s[1..], id);
    }
  }

  lemma {:induction false} IdsUnicosCons(x: Registro, t: seq<Registro>)
    ensures IdsUnicos([x] + t) <==> IdsUnicos(t) && forall y :: y in t ==> y.id != x.id
  {
    var s := [x] + t;
    if IdsUnicos(s) {
      forall i, j | 0 <= i < |t| && 0 <= j < |t| && i != j ensures t[i].id != t[j].id {
        assert s[i + 1] == t[i] && s[j + 1] == t[j];
      }
      forall y | y in t ensures y.id != x.id {
        var i :| 0 <= i < |t| && t[i] == y;
        assert s[0] == x && s[i + 1] == y;
      }
    }
  }

  /** With unique ids, deleting an id that is present removes exactly one record. */
  lemma {:induction false} RemoverPorIdUnico(s: seq<Registro>, id: int)
    requires IdsUnicos(s) && TemId(s, id)
    ensures |RemoverPorId(s, id)| == |s| - 1
  {
    IdsUnicosCons(s[0], s[1..]);
    assert s == [s[0]] + s[1..];
    if s[0].id == id {
      assert !TemId(s[1..], id) by {
        forall i | 0 <= i < |s[1..]| ensures s[1..][i].id != id {
          assert s[1..][i] in s[1..];
        }
      }
      RemoverPorIdAusente(s[1..], id);
    } else {
      assert TemId(s[1..], id) by {
        var i :| 0 <= i < |s| && s[i].id == id;
        assert i > 0 && s[1..][i - 1].id == id;
      }
      RemoverPorIdUnico(s[1..], id);
    }
  }

  /** Deleting keeps ids unique. */
  lemma {:induction false} RemoverPorIdIdsUnicos(s: seq<Registro>, id: int)
    requires IdsUnicos(s)
    ensures IdsUnicos(RemoverPorId(s, id))
  {
    if s != [] {
      assert s == [s[0]] + s[1..];
      IdsUnicosCons(s[0], s[1..]);
      RemoverPorIdIdsUnicos(s[1..], id);
      if s[0].id != id {
        IdsUnicosCons(s[0], RemoverPorId(s[1..], id));
      }
    }
  }

  // ---------------------------------------------------------------------------
  // Lookup: the first record carrying an id, or none
  // ---------------------------------------------------------------------------

  /** The first record carrying `id`, or None when there is none. */
  function BuscarPorId(s: seq<Registro>, id: int): (r: Option<Registro>)
    ensures r.None? <==> !TemId(s, id)
    ensures r.Some? ==> exists i :: 0 <= i < |s| && s[i] == r.value && s[i].id == id &&
                                    forall j :: 0 <= j < i ==> s[j].id != id
  {
    if s == [] then None
    else if s[0].id == id then Some(s[0])
    else
      var r := BuscarPorId(s[1..], id);
      assert TemId(s, id) ==> TemId(s[1..], id) by {
        if TemId(s, id) {
          var i :| 0 <= i < |s| && s[i].id == id;
          assert i > 0 && s[1..][i - 1].id == id;
        }
      }
      assert r.Some? ==> TemId(s, id) by {
        if r.Some? {
          var i :| 0 <= i < |s[1..]| && s[1..][i] == r.value && s[1..][i].id == id;
          assert s[i + 1].id == id;
        }
      }
      assert r.Some? ==> exists i :: 0 <= i < |s| && s[i] == r.value && s[i].id == id &&
                                    forall j :: 0 <= j < i ==> s[j].id != id by {
        if r.Some? {
          var i :| 0 <= i < |s[1..]| && s[1..][i] == r.value && s[1..][i].id == id &&
                   forall j :: 0 <= j < i ==> s[1..][j].id != id;
          assert forall j :: 0 <= j < i + 1 ==> s[j].id != id by {
            forall j | 0 <= j < i + 1 ensures s[j].id != id {
              if j > 0 { assert s[j] == s[1..][j - 1]; }
            }
          }
          assert s[i + 1] == r.value && s[i + 1].id == id;
        }
      }
      r
  }

  /** With unique ids, looking up a record's own id finds that record. */
  lemma {:induction false} BuscarPorIdUnico(s: seq<Registro>, x: Registro)
    requires IdsUnicos(s) && x in s
    ensures BuscarPorId(s, x.id) == Some(x)
  {
    var k :| 0 <= k < |s| && s[k] == x;
    assert TemId(s, x.id);
    var r := BuscarPorId(s, x.id);
    var i :| 0 <= i < |s| && s[i] == r.value && s[i].id == x.id && forall j :: 0 <= j < i ==> s[j].id != x.id;
    assert i == k;
  }

  /** After an edit, looking up the edited id shows the new values and the
      id and date of the first record that had it. */
  lemma {:induction false} AtualizarCamposBusca(s: seq<Registro>, id: int, estudo: real, trabalho: real, treino: real)
    requires TemId(s, id)
    ensures var antes := BuscarPorId(s, id);
      BuscarPorId(AtualizarCampos(s, id, estudo, trabalho, treino), id)
        == Some(Registro(id, estudo, trabalho, treino, antes.value.data))
  {
    var r := AtualizarCampos(s, id, estudo, trabalho, treino);
    var antes := BuscarPorId(s, id);
    var i :| 0 <= i < |s| && s[i] == antes.value && s[i].id == id && forall j :: 0 <= j < i ==> s[j].id != id;
    AtualizarCamposEm(s, id, estudo, trabalho, treino, i);
    assert TemId(r, id);
    var depois := BuscarPorId(r, id);
    var k :| 0 <= k < |r| && r[k] == depois.value && r[k].id == id && forall j :: 0 <= j < k ==> r[j].id != id;
    AtualizarCamposEm(s, id, estudo, trabalho, treino, k);
    assert k == i;
  }

  // ---------------------------------------------------------------------------
  // Stable sort by a comparator on one field
  // ---------------------------------------------------------------------------

  predicate OrdenadoPor(s: seq<Registro>, c: Criterio)
  {
    forall i, j :: 0 <= i < j < |s| ==> Chave(s[i], c) <= Chave(s[j], c)
  }

  /** Insert `x` before the first element whose key is not smaller, so that
      `x` stays ahead of the elements that tie with it. */
  function Inserir(x: Registro, s: seq<Registro>, c: Criterio): (r: seq<Registro>)
    ensures multiset(r) == multiset(s) + multiset{x}
  {
    if s == [] || Chave(x, c) <= Chave(s[0], c) then [x] + s
    else
      assert s == [s[0]] + s[1..];
      [s[0]] + Inserir(x, s[1..], c)
  }

  /** A stable sort by ascending key, as Array.prototype.sort with the
      comparator `(a, b) => key(a) - key(b)`. */
  function OrdenarPor(s: seq<Registro>, c: Criterio): (r: seq<Registro>)
    ensures multiset(r) == multiset(s)
  {
    if s == [] then []
    else
      assert s == [s[0]] + s[1..];
      Inserir(s[0], OrdenarPor(s[1..], c), c)
  }

  lemma {:induction false} InserirOrdena(x: Registro, s: seq<Registro>, c: Criterio)
    requires OrdenadoPor(s, c)
    ensures OrdenadoPor(Inserir(x, s, c), c)
  {
    if s != [] && Chave(x, c) > Chave(s[0], c) {
      var t := Inserir(x, s[1..], c);
      InserirOrdena(x, s[1..], c);
      forall k | 0 <= k < |t| ensures Chave(s[0], c) <= Chave(t[k], c) {
        assert t[k] in multiset(s[1..]) + multiset{x};
        if t[k] != x {
          var m :| 0 <= m < |s[1..]| && s[1..][m] == t[k];
          assert s[m + 1] == t[k];
        }
      }
    }
  }

  /** The sorted copy is ordered by the key. */
  lemma {:induction false} OrdenarPorCorreto(s: seq<Registro>, c: Criterio)
    ensures OrdenadoPor(OrdenarPor(s, c), c)
  {
    if s != [] {
      OrdenarPorCorreto(s[1..], c);
      InserirOrdena(s[0], OrdenarPor(s[1..], c), c);
    }
  }

  /** The records whose key equals `k`, in their order in `s`. */
  function ComChave(s: seq<Registro>, c: Criterio, k: real): seq<Registro>
  {
    if s == [] then []
    else if Chave(s[0], c) == k then [s[0]] + ComChave(s[1..], c, k)
    else ComChave(s[1..], c, k)
  }

  lemma {:induction false} InserirComChave(x: Registro, s: seq<Registro>, c: Criterio, k: real)
    ensures ComChave(Inserir(x, s, c), c, k) == ComChave([x], c, k) + ComChave(s, c, k)
  {
    assert ComChave([x], c, k) == (if Chave(x, c) == k then [x] else []) by {
      assert [x][1..] == [];
    }
    if s == [] || Chave(x, c) <= Chave(s[0], c) {
      assert ([x] + s)[1..] == s;
    } else {
      InserirComChave(x, s[1..], c, k);
      assert ([s[0]] + Inserir(x, s[1..], c))[1..] == Inserir(x, s[1..], c);
    }
  }

  /** Stability: records that tie on the key keep their relative order. */
  lemma {:induction false} OrdenarPorEstavel(s: seq<Registro>, c: Criterio, k: real)
    ensures ComChave(OrdenarPor(s, c), c, k) == ComChave(s, c, k)
  {
    if s != [] {
      OrdenarPorEstavel(s[1..], c, k);
      InserirComChave(s[0], OrdenarPor(s[1..], c), c, k);
      assert ComChave([s[0]], c, k) == (if Chave(s[0], c) == k then [s[0]] else []) by {
        assert [s[0]][1..] == [];
      }
    }
  }

  // ---------------------------------------------------------------------------
  // With unique ids the order by id is determined by the set of records
  // ---------------------------------------------------------------------------

  predicate EstritoPorId(s: seq<Registro>)
  {
    forall i, j :: 0 <= i < j < |s| ==> s[i].id < s[j].id
  }

  lemma {:induction false} UnicoNoMaximoUmaVez(s: seq<Registro>, x: Registro)
    requires IdsUnicos(s)
    ensures multiset(s)[x] <= 1
  {
    if s != [] {
      assert s == [s[0]] + s[1..];
      IdsUnicosCons(s[0], s[1..]);
      UnicoNoMaximoUmaVez(s[1..], x);
      if s[0] == x {
        assert x !in s[1..];
      }
    }
  }

  lemma {:induction false} DuasPosicoes(s: seq<Registro>, i: nat, j: nat)
    requires i < j < |s| && s[i] == s[j]
    ensures multiset(s)[s[i]] >= 2
  {
    assert s == s[..i] + [s[i]] + s[i + 1..j] + [s[j]] + s[j + 1..];
  }

  /** A permutation of a collection with unique ids has unique ids. */
  lemma {:induction false} IdsUnicosPermutacao(a: seq<Registro>, b: seq<Registro>)
    requires multiset(a) == multiset(b) && IdsUnicos(a)
    ensures IdsUnicos(b)
  {
    forall i, j | 0 <= i < |b| && 0 <= j < |b| && i != j ensures b[i].id != b[j].id {
      if b[i] == b[j] {
        if i < j { DuasPosicoes(b, i, j); } else { DuasPosicoes(b, j, i); }
        UnicoNoMaximoUmaVez(a, b[i]);
        assert false;
      } else {
        assert b[i] in multiset(a) && b[j] in multiset(a);
        var p :| 0 <= p < |a| && a[p] == b[i];
        var q :| 0 <= q < |a| && a[q] == b[j];
      }
    }
  }

  /** A record past the head of a strictly id-ordered sequence is not its
      head, so when it also lies in `b`, whose head is the same, it lies in
      `b`'s tail. */
  lemma NaCauda(a: seq<Registro>, b: seq<Registro>, x: Registro)
    requires EstritoPorId(a) && a != [] && b != [] && a[0] == b[0]
    requires x in a[1..] && x in b
    ensures x in b[1..]
  {
    var k :| 0 <= k < |a[1..]| && a[1..][k] == x;
    assert a[k + 1] == x && x.id > a[0].id;
    var m :| 0 <= m < |b| && b[m] == x;
    assert b[1..][m - 1] == x;
  }

  /** Two collections that are strictly ordered by id and hold the same
      records are the same sequence. */
  lemma {:induction false} EstritoMesmosElementos(a: seq<Registro>, b: seq<Registro>)
    requires EstritoPorId(a) && EstritoPorId(b)
    requires forall x :: x in a <==> x in b
    ensures a == b
  {
    assert a != [] ==> a[0] in b;
    assert b != [] ==> b[0] in a;
    if a != [] && b != [] {
      var j :| 0 <= j < |b| && b[j] == a[0];
      var i :| 0 <= i < |a| && a[i] == b[0];
      assert i == 0;
      forall x ensures x in a[1..] <==> x in b[1..] {
        if x in a[1..] {
          assert x in a;
          NaCauda(a, b, x);
        }
        if x in b[1..] {
          assert x in b;
          NaCauda(b, a, x);
        }
      }
      EstritoMesmosElementos(a[1..], b[1..]);
      assert a == [a[0]] + a[1..];
      assert b == [b[0]] + b[1..];
    }
  }

  /** With unique ids, sorting by id gives the same sequence whatever order
      the input was in. */
  lemma {:induction false} OrdenarPorIdIgnoraOrdem(p: seq<Registro>, s: seq<Registro>)
    requires multiset(p) == multiset(s) && IdsUnicos(s)
    ensures OrdenarPor(p, PorId) == OrdenarPor(s, PorId)
  {
    var a := OrdenarPor(p, PorId);
    var b := OrdenarPor(s, PorId);
    OrdenarPorCorreto(p, PorId);
    OrdenarPorCorreto(s, PorId);
    IdsUnicosPermutacao(s, a);
    IdsUnicosPermutacao(s, b);
    assert EstritoPorId(a) by {
      forall i, j | 0 <= i < j < |a| ensures a[i].id < a[j].id {
        assert Chave(a[i], PorId) <= Chave(a[j], PorId);
      }
    }
    assert EstritoPorId(b) by {
      forall i, j | 0 <= i < j < |b| ensures b[i].id < b[j].id {
        assert Chave(b[i], PorId) <= Chave(b[j], PorId);
      }
    }
    forall x ensures x in a <==> x in b {
      assert x in a <==> x in multiset(a);
      assert x in b <==> x in multiset(b);
    }
    EstritoMesmosElementos(a, b);
  }
}
