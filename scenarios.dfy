/**
 * A worked session with the entry service: a salary and a rent payment are
 * entered (as pending), then settled, and the user's balance follows.
 */
module Cenarios {
  import opened Wrappers
  import opened Entities
  import opened JavaText
  import opened LancamentoRules
  import opened Saldo
  import opened LancamentoService

  const Dono := Usuario(Some(1), "usuario", "email@email.com", "senha")

  function Entrada(descricao: string, valor: real, tipo: TipoLancamento): Lancamento {
    Lancamento(None, Some(descricao), Some(1), Some(2020), Some(Dono), Some(valor), Some(tipo), None)
  }

  /** An entry made by `Entrada` passes validation when its description is not blank and its amount is positive. */
  lemma EntradaValida(descricao: string, valor: real, tipo: TipoLancamento)
    requires Trim(descricao) != "" && valor > 0.0
    ensures Validar(Entrada(descricao, valor, tipo)).Pass?
  {
    AnoExamples();
  }

  /** The salary and the rent, as `salvar` stores them: pending, under ids 0 and 1. */
  const SalarioPendente := Entrada("Salário", 1000.0, RECEITA).(id := Some(0), status := Some(PENDENTE))
  const AluguelPendente := Entrada("Aluguel", 400.0, DESPESA).(id := Some(1), status := Some(PENDENTE))

  /** Entering the salary and then the rent into an empty ledger. */
  method LancarSalarioEAluguel() returns (service: LancamentoServiceImpl)
    ensures fresh(service) && service.Valid()
    ensures service.repository == map[0 := SalarioPendente, 1 := AluguelPendente]
    ensures ObterSaldoPorUsuario(service.repository, 1) == 0.0
  {
    service := new LancamentoServiceImpl();
    assert Trim("Salário") == "Salário";
    EntradaValida("Salário", 1000.0, RECEITA);
    assert Trim("Aluguel") == "Aluguel";
    EntradaValida("Aluguel", 400.0, DESPESA);
    var salario := service.Salvar(Entrada("Salário", 1000.0, RECEITA));
    var aluguel := service.Salvar(Entrada("Aluguel", 400.0, DESPESA));
    SaldoZeroSemEfetivados(service.repository, 1);
  }

  /** Settling the pending salary in the ledger `LancarSalarioEAluguel` leaves. */
  method EfetivarSalario(service: LancamentoServiceImpl)
    requires service.Valid()
    requires 0 in service.repository && service.repository[0] == SalarioPendente
    requires 1 in service.repository && service.repository[1] == AluguelPendente
    requires ObterSaldoPorUsuario(service.repository, 1) == 0.0
    modifies service
    ensures service.Valid()
    ensures 1 in service.repository && service.repository[1] == AluguelPendente
    ensures ObterSaldoPorUsuario(service.repository, 1) == 1000.0
  {
    var efetivado := service.AtualizarStatus(SalarioPendente, EFETIVADO);
  }

  /** Settling the pending rent after the salary. */
  method EfetivarAluguel(service: LancamentoServiceImpl)
    requires service.Valid()
    requires 1 in service.repository && service.repository[1] == AluguelPendente
    requires ObterSaldoPorUsuario(service.repository, 1) == 1000.0
    modifies service
    ensures service.Valid()
    ensures ObterSaldoPorUsuario(service.repository, 1) == 600.0
  {
    var efetivado := service.AtualizarStatus(AluguelPendente, EFETIVADO);
  }

  /**
   * Entering a salary of 1000 and a rent of 400 leaves the balance at 0 while
   * both are pending; settling the salary brings it to 1000, settling the
   * rent to 600.
   */
  method SalarioMenosAluguel() returns (pendente: real, comSalario: real, final: real)
    ensures pendente == 0.0 && comSalario == 1000.0 && final == 600.0
  {
    var service := LancarSalarioEAluguel();
    pendente := ObterSaldoPorUsuario(service.repository, 1);
    EfetivarSalario(service);
    comSalario := ObterSaldoPorUsuario(service.repository, 1);
    EfetivarAluguel(service);
    final := ObterSaldoPorUsuario(service.repository, 1);
  }
}
