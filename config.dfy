/**
 * The four report endpoints of main.py. They share one reshaping algorithm
 * and differ only in the map from an `Akun` label to an output field and in
 * the list fixing the output fields and their order.
 */
module ReportConfig {
  import opened Reshape

  datatype ReportKind =
    | SyariahIncome         // /balance-sheet/ep/syariah/laba-rugi/<filename>
    | ConventionalIncome    // /balance-sheet/ep/konvesional/laba-rugi/<filename>
    | SyariahPosition       // /balance-sheet/ep/syariah/laporan-keuangan/<filename>
    | ConventionalPosition  // /balance-sheet/ep/konvesional/laporan-keuangan/<filename>

  /** `account_to_output_key_map` of each endpoint. */
  function Accounts(kind: ReportKind): map<string, string> {
    match kind
    case SyariahIncome => SyariahIncomeAccounts
    case ConventionalIncome => ConventionalIncomeAccounts
    case SyariahPosition => PositionAccounts
    case ConventionalPosition => PositionAccounts
  }

  /** `desired_output_keys_order` of each endpoint. */
  function KeyOrder(kind: ReportKind): seq<string> {
    match kind
    case SyariahIncome => SyariahIncomeKeys
    case ConventionalIncome => ConventionalIncomeKeys
    case SyariahPosition => PositionKeys
    case ConventionalPosition => PositionKeys
  }

  const SyariahIncomeAccounts: map<string, string> := map[
    "Pendapatan bunga" := "interest_income",
    "Jumlah partisipasi anggota" := "member_participation",
    "PARTISIPASI ANGGOTA" := "member_participation_category",
    "BEBAN USAHA" := "operating_expenses_category",
    "Beban penyisihan" := "allowance_expense",
    "Beban kepegawaian" := "personnel_expense",
    "Beban administrasi dan umum" := "administrative_general_expenses",
    "Beban penyusutan dan amortisasi" := "depreciation_amortization_expenses",
    "Jumlah beban usaha" := "business_expense",
    "SISA HASIL USAHA BRUTO" := "remaining_profit_bruto",
    "Hasil investasi" := "investment_result",
    "Beban perkoperasian" := "cooperative_expense",
    "PENDAPATAN & BEBAN LAIN" := "other_income_expense_category",
    "Pendapatan lain" := "other_income",
    "Beban lain" := "other_expense",
    "Sisa hasil usaha sebelum pajak" := "remaining_profit_before_tax",
    "Beban pajak penghasilan" := "income_tax_expense",
    "SISA HASIL USAHA" := "remaining_profit",
    "Penghasilan komprehensif lain" := "other_comprehensive_income",
    "PENGHASILAN KOMPREHENSIF" := "comprehensive_income"
  ]

  /** Holds no "year": records of this endpoint carry no year field. */
  const SyariahIncomeKeys: seq<string> := [
    "interest_income",
    "other_business_income",
    "member_participation",
    "member_participation_category",
    "operating_expenses_category",
    "interest_expense",
    "allowance_expense",
    "personnel_expense",
    "administrative_general_expenses",
    "depreciation_amortization_expenses",
    "other_business_expense",
    "business_expense",
    "investment_result",
    "cooperative_expense",
    "other_income",
    "other_expense",
    "remaining_profit_before_tax",
    "income_tax_expense",
    "remaining_profit",
    "other_comprehensive_income",
    "comprehensive_income"
  ]

  const ConventionalIncomeAccounts: map<string, string> := map[
    "PARTISIPASI ANGGOTA" := "member_participation_category",
    "Pendapatan bunga" := "interest_income",
    "Jumlah partisipasi anggota" := "member_participation",
    "BEBAN USAHA" := "operating_expenses_category",
    "Beban bunga" := "interest_expense",
    "Beban penyisihan" := "allowance_expense",
    "Beban kepegawaian" := "personnel_expense",
    "Beban administrasi dan umum" := "administrative_general_expenses",
    "Beban penyusutan dan amortisasi" := "depreciation_amortization_expenses",
    "Beban usaha lainnya" := "other_business_expense",
    "Jumlah beban usaha" := "business_expense",
    "SISA HASIL USAHA BRUTO" := "remaining_profit_bruto",
    "Hasil investasi" := "investment_result",
    "Beban perkoperasian" := "cooperative_expense",
    "PENDAPATAN & BEBAN LAIN" := "other_income_expense_category",
    "Pendapatan lain" := "other_income",
    "Beban lain" := "other_expense",
    "Sisa hasil usaha sebelum pajak" := "remaining_profit_before_tax",
    "Beban pajak penghasilan" := "income_tax_expense",
    "SISA HASIL USAHA" := "remaining_profit",
    "Penghasilan komprehensif lain" := "other_comprehensive_income",
    "PENGHASILAN KOMPREHENSIF" := "comprehensive_income"
  ]

  const ConventionalIncomeKeys: seq<string> := [
    "year",
    "member_participation",
    "interest_income",
    "interest_expense",
    "allowance_expense",
    "personnel_expense",
    "administrative_general_expenses",
    "depreciation_amortization_expenses",
    "other_business_expense",
    "business_expense",
    "remaining_profit_bruto",
    "investment_result",
    "cooperative_expense",
    "other_income_expense_category",
    "other_income",
    "other_expense",
    "remaining_profit_before_tax",
    "income_tax_expense",
    "remaining_profit",
    "other_comprehensive_income",
    "comprehensive_income"
  ]

  /** The two statement-of-position endpoints carry the same constants. */
  const PositionAccounts: map<string, string> := map[
    "Kas dan setara kas" := "cash_and_cash_equivalents",
    "Piutang bunga" := "interest_receivable",
    "Pinjaman anggota" := "member_loans",
    "Penyisihan pinjaman" := "loan_loss_provision",
    "Pinjaman koperasi lain" := "loans_to_other_cooperatives",
    "Aset tetap" := "fixed_assets",
    "Akumulasi penyusutan" := "accumulated_depreciation",
    "Aset takberwujud" := "intangible_assets",
    "Akumulasi amortisasi" := "accumulated_amortization",
    "Aset lain" := "other_assets",
    "Total aset" := "total_assets",
    "Utang bunga" := "interest_payable",
    "Simpanan anggota" := "member_deposits",
    "Simpanan koperasi lain" := "other_cooperative_deposits",
    "Utang pinjaman" := "loan_payable",
    "Liabilitas imbalan kerja" := "employee_benefit_liabilities",
    "Liabilitas lain" := "other_liabilities",
    "Total liabilitas" := "total_liabilities",
    "Simpanan Pokok" := "principal_savings",
    "Simpanan Wajib" := "mandatory_savings",
    "Cadangan umum" := "general_reserve",
    "Sisa hasil usaha" := "retained_earnings",
    "Ekuitas lain" := "other_equity",
    "Total ekuitas" := "total_equity",
    "Total liabilitas dan ekuitas" := "total_liabilities_and_equity"
  ]

  const PositionKeys: seq<string> := [
    "year",
    "cash_and_cash_equivalents",
    "interest_receivable",
    "member_loans",
    "loan_loss_provision",
    "loans_to_other_cooperatives",
    "fixed_assets",
    "accumulated_depreciation",
    "intangible_assets",
    "accumulated_amortization",
    "other_assets",
    "total_assets",
    "interest_payable",
    "member_deposits",
    "other_cooperative_deposits",
    "loan_payable",
    "employee_benefit_liabilities",
    "other_liabilities",
    "total_liabilities",
    "principal_savings",
    "mandatory_savings",
    "general_reserve",
    "retained_earnings",
    "other_equity",
    "total_equity",
    "total_liabilities_and_equity"
  ]

  /** Every endpoint lists each output field once, so each record has one entry per listed field. */
  lemma KeyOrderNoRepeats(kind: ReportKind)
    ensures NoRepeats(KeyOrder(kind))
  {
    match kind
    case SyariahIncome => SyariahIncomeKeysNoRepeats();
    case ConventionalIncome => ConventionalIncomeKeysNoRepeats();
    case SyariahPosition => PositionKeysNoRepeats();
    case ConventionalPosition => PositionKeysNoRepeats();
  }

  /** The entries at positions `lo` to `hi - 1` each differ from every later entry. */
  predicate RowsApart(keys: seq<string>, lo: nat, hi: nat) {
    forall i, j | lo <= i < hi && i < j < |keys| :: keys[i] != keys[j]
  }

  lemma RowsApartJoin(keys: seq<string>, lo: nat, mid: nat, hi: nat)
    requires RowsApart(keys, lo, mid) && RowsApart(keys, mid, hi)
    ensures RowsApart(keys, lo, hi)
  {
  }

  lemma SyariahIncomeKeysNoRepeats()
    ensures NoRepeats(SyariahIncomeKeys)
  {
    SyariahIncomeRows0(); SyariahIncomeRows1(); SyariahIncomeRows2(); SyariahIncomeRows3();
    RowsApartJoin(SyariahIncomeKeys, 0, 4, 8);
    RowsApartJoin(SyariahIncomeKeys, 0, 8, 13);
    RowsApartJoin(SyariahIncomeKeys, 0, 13, 21);
  }

  lemma SyariahIncomeRows0() ensures RowsApart(SyariahIncomeKeys, 0, 4) {}
  lemma SyariahIncomeRows1() ensures RowsApart(SyariahIncomeKeys, 4, 8) {}
  lemma SyariahIncomeRows2() ensures RowsApart(SyariahIncomeKeys, 8, 13) {}
  lemma SyariahIncomeRows3() ensures RowsApart(SyariahIncomeKeys, 13, 21) {}

  lemma ConventionalIncomeKeysNoRepeats()
    ensures NoRepeats(ConventionalIncomeKeys)
  {
    ConventionalIncomeRows0(); ConventionalIncomeRows1(); ConventionalIncomeRows2(); ConventionalIncomeRows3();
    RowsApartJoin(ConventionalIncomeKeys, 0, 4, 8);
    RowsApartJoin(ConventionalIncomeKeys, 0, 8, 13);
    RowsApartJoin(ConventionalIncomeKeys, 0, 13, 21);
  }

  lemma ConventionalIncomeRows0() ensures RowsApart(ConventionalIncomeKeys, 0, 4) {}
  lemma ConventionalIncomeRows1() ensures RowsApart(ConventionalIncomeKeys, 4, 8) {}
  lemma ConventionalIncomeRows2() ensures RowsApart(ConventionalIncomeKeys, 8, 13) {}
  lemma ConventionalIncomeRows3() ensures RowsApart(ConventionalIncomeKeys, 13, 21) {}

  lemma PositionKeysNoRepeats()
    ensures NoRepeats(PositionKeys)
  {
    PositionRows0(); PositionRows1(); PositionRows2(); PositionRows3(); PositionRows4();
    RowsApartJoin(PositionKeys, 0, 4, 8);
    RowsApartJoin(PositionKeys, 0, 8, 12);
    RowsApartJoin(PositionKeys, 0, 12, 17);
    RowsApartJoin(PositionKeys, 0, 17, 26);
  }

  lemma PositionRows0() ensures RowsApart(PositionKeys, 0, 4) {}
  lemma PositionRows1() ensures RowsApart(PositionKeys, 4, 8) {}
  lemma PositionRows2() ensures RowsApart(PositionKeys, 8, 12) {}
  lemma PositionRows3() ensures RowsApart(PositionKeys, 12, 17) {}
  lemma PositionRows4() ensures RowsApart(PositionKeys, 17, 26) {}

  /** Only the syariah income statement leaves "year" out of its field list. */
  lemma YearListed(kind: ReportKind)
    ensures "year" in KeyOrder(kind) <==> kind != SyariahIncome
  {
    match kind
    case SyariahIncome => YearAbsentSyariahIncome();
    case ConventionalIncome => assert ConventionalIncomeKeys[0] == "year";
    case SyariahPosition => assert PositionKeys[0] == "year";
    case ConventionalPosition => assert PositionKeys[0] == "year";
  }

  lemma YearAbsentSyariahIncome() ensures "year" !in SyariahIncomeKeys {}

  /** The syariah income statement maps "SISA HASIL USAHA BRUTO" to a field it never lists. */
  lemma BrutoTargetUnlisted()
    ensures Accounts(SyariahIncome)["SISA HASIL USAHA BRUTO"] == "remaining_profit_bruto"
    ensures "remaining_profit_bruto" !in KeyOrder(SyariahIncome)
  {
    BrutoTarget();
    BrutoUnlisted();
  }

  lemma BrutoTarget() ensures SyariahIncomeAccounts["SISA HASIL USAHA BRUTO"] == "remaining_profit_bruto" {}
  lemma BrutoUnlisted() ensures "remaining_profit_bruto" !in SyariahIncomeKeys {}

  /** The conventional income statement maps "BEBAN USAHA" to a field it never lists. */
  lemma OperatingCategoryUnlisted()
    ensures Accounts(ConventionalIncome)["BEBAN USAHA"] == "operating_expenses_category"
    ensures "operating_expenses_category" !in KeyOrder(ConventionalIncome)
  {
    OperatingCategoryTarget();
    OperatingCategoryAbsent();
  }

  lemma OperatingCategoryTarget() ensures ConventionalIncomeAccounts["BEBAN USAHA"] == "operating_expenses_category" {}
  lemma OperatingCategoryAbsent() ensures "operating_expenses_category" !in ConventionalIncomeKeys {}
}
