/** The training-hours chart: with fewer than two records it shows a notice;
    otherwise it orders a copy of the records by id and projects one label
    and one `treino` point per record. */
module Grafico {
  import opened Registros

  /** What the component renders: the notice, or the line chart's labels and
      its single data series. */
  datatype Vista = Aviso | Linha(labels: seq<string>, dadosTreino: seq<real>)

  /** The copy of the records in ascending id order, ties kept in input order. */
  function OrdenadosPorId(s: seq<Registro>): (r: seq<Registro>)
    ensures multiset(r) == multiset(s)
    ensures OrdenadoPor(r, PorId)
  {
    OrdenarPorCorreto(s, PorId);
    OrdenarPor(s, PorId)
  }

  /** `rotulo` stands for the day/month text derived from a timestamp, which
      depends on the clock's timezone. */
  function Renderizar(registros: Option<seq<Registro>>, rotulo: int -> string): (v: Vista)
    ensures v.Aviso? <==> registros.None? || |registros.value| < 2
  {
    if registros.None? || |registros.value| < 2 then Aviso
    else
      var ordenados := OrdenadosPorId(registros.value);
      Linha(seq(|ordenados|, i requires 0 <= i < |ordenados| => rotulo(ordenados[i].id)),
            seq(|ordenados|, i requires 0 <= i < |ordenados| => ordenados[i].treino))
  }

  /** The chart is a projection of an id-ordered permutation of its input:
      one label and one point per record, label i and point i both taken
      from the i-th record in id order. */
  lemma {:induction false} LinhaSegueOrdemDeId(registros: seq<Registro>, rotulo: int -> string)
    requires |registros| >= 2
    ensures var v := Renderizar(Some(registros), rotulo);
      v.Linha? &&
      exists ordenados: seq<Registro> ::
        multiset(ordenados) == multiset(registros) && OrdenadoPor(ordenados, PorId) &&
        |v.labels| == |ordenados| && |v.dadosTreino| == |ordenados| &&
        (forall i :: 0 <= i < |ordenados| ==>
           v.labels[i] == rotulo(ordenados[i].id) && v.dadosTreino[i] == ordenados[i].treino)
  {
    var ordenados := OrdenadosPorId(registros);
    assert |ordenados| == |multiset(ordenados)| == |registros|;
  }

  /** With unique ids the chart does not depend on the order its input comes
      in, so it is the same whichever sort mode the list below it uses. */
  lemma {:induction false} RenderizarIgnoraOrdem(p: seq<Registro>, s: seq<Registro>, rotulo: int -> string)
    requires multiset(p) == multiset(s) && IdsUnicos(s)
    ensures Renderizar(Some(p), rotulo) == Renderizar(Some(s), rotulo)
  {
    assert |p| == |multiset(p)| == |s|;
    OrdenarPorIdIgnoraOrdem(p, s);
  }
}
