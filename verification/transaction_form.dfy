/** The transaction dialog (components/finance/transaction-form.tsx): the
    record handleSubmit sends to the database, the option filters, and the
    form state with resetForm, the account default after loading and the
    effect that loads a transaction for editing. The database calls are
    left out; what they return is a parameter. */
module TransactionForm {
  import opened Results
  import opened Numbers
  import opened Transactions

  datatype Account = Account(id: string, name: string)

  /** A category; the database only has income and expense categories. */
  datatype Category = Category(id: string, name: string, kind: TxType)

  /** `value || null` for a form field. */
  function NullIfEmpty(s: string): (r: Option<string>)
    ensures r.None? <==> s == ""
    ensures r.Some? ==> r.value == s
  {
    if s == "" then None else Some(s)
  }

  /** The transactionData object of handleSubmit. */
  datatype TransactionPayload = TransactionPayload(
    tenantId: string,
    kind: TxType,
    amount: Num,
    description: Option<string>,
    accountId: Option<string>,
    categoryId: Option<string>,
    fromAccountId: Option<string>,
    toAccountId: Option<string>,
    date: string,
    notes: Option<string>)

  /** transactionData, built from the form fields. `new Date(date).toISOString()`
      is the parameter toIso. */
  function BuildPayload(
    tenantId: string, kind: TxType, amount: string, description: string, accountId: string,
    categoryId: string, toAccountId: string, date: string, notes: string, toIso: string -> string): TransactionPayload
  {
    TransactionPayload(
      tenantId,
      kind,
      ParseFloat(amount),
      NullIfEmpty(description),
      if kind != Transfer then Some(accountId) else None,
      if kind != Transfer then NullIfEmpty(categoryId) else None,
      if kind == Transfer then Some(accountId) else None,
      if kind == Transfer then Some(toAccountId) else None,
      toIso(date),
      NullIfEmpty(notes))
  }

  /** How handleSubmit routes the selections: a transfer goes from the
      selected account to the selected to-account with no account and no
      category; income and expense go to the selected account with the
      selected category (null when none is chosen) and no counterpart. So
      the selected account is in the record exactly once, as account_id or
      as from_account_id. Empty description and notes become null. */
  lemma PayloadRouting(
    tenantId: string, kind: TxType, amount: string, description: string, accountId: string,
    categoryId: string, toAccountId: string, date: string, notes: string, toIso: string -> string)
    ensures var p := BuildPayload(tenantId, kind, amount, description, accountId, categoryId, toAccountId, date, notes, toIso);
      && (kind == Transfer ==>
            p.accountId.None? && p.categoryId.None? && p.fromAccountId == Some(accountId) && p.toAccountId == Some(toAccountId))
      && (kind != Transfer ==>
            p.accountId == Some(accountId) && p.categoryId == NullIfEmpty(categoryId) && p.fromAccountId.None? && p.toAccountId.None?)
      && (p.accountId.Some? != p.fromAccountId.Some?)
      && (p.accountId.Some? ==> p.accountId.value == accountId)
      && (p.fromAccountId.Some? ==> p.fromAccountId.value == accountId)
      && (p.categoryId.Some? ==> kind != Transfer && p.categoryId.value == categoryId != "")
      && (p.description.None? <==> description == "") && (p.description.Some? ==> p.description.value == description)
      && (p.notes.None? <==> notes == "") && (p.notes.Some? ==> p.notes.value == notes)
      && p.kind == kind && p.tenantId == tenantId && p.amount == ParseFloat(amount) && p.date == toIso(date)
  {
  }

  /** `categories.filter((cat) => cat.type === type)`. */
  function FilteredCategories(categories: seq<Category>, kind: TxType): (r: seq<Category>)
    ensures |r| <= |categories|
    ensures forall c :: c in r <==> c in categories && c.kind == kind
  {
    if categories == [] then []
    else (if categories[0].kind == kind then [categories[0]] else []) + FilteredCategories(categories[1..], kind)
  }

  /** A list of categories of the type alone goes through the filter
      whole and in order. */
  lemma {:induction false} FilteredCategoriesKeepsAll(categories: seq<Category>, kind: TxType)
    requires forall k :: 0 <= k < |categories| ==> categories[k].kind == kind
    ensures FilteredCategories(categories, kind) == categories
  {
    if categories != [] {
      FilteredCategoriesKeepsAll(categories[1..], kind);
      assert [categories[0]] + categories[1..] == categories;
    }
  }

  /** Filtering twice changes nothing, and a transfer is offered no
      category when every category is an income or an expense one. */
  lemma FilteredCategoriesSpec(categories: seq<Category>, kind: TxType)
    ensures FilteredCategories(FilteredCategories(categories, kind), kind) == FilteredCategories(categories, kind)
    ensures (forall k :: 0 <= k < |categories| ==> categories[k].kind != Transfer) ==>
      FilteredCategories(categories, Transfer) == []
  {
    var r := FilteredCategories(categories, kind);
    forall k | 0 <= k < |r|
      ensures r[k].kind == kind
    {
      assert r[k] in r;
    }
    FilteredCategoriesKeepsAll(r, kind);
    var t := FilteredCategories(categories, Transfer);
    if t != [] {
      assert t[0] in t;
    }
  }

  /** `accounts.filter((acc) => acc.id !== accountId)`: the to-account
      options. */
  function ExcludeAccount(accounts: seq<Account>, accountId: string): (r: seq<Account>)
    ensures |r| <= |accounts|
    ensures forall a :: a in r <==> a in accounts && a.id != accountId
  {
    if accounts == [] then []
    else (if accounts[0].id != accountId then [accounts[0]] else []) + ExcludeAccount(accounts[1..], accountId)
  }

  /** The ids of the accounts are all different. */
  predicate DistinctIds(accounts: seq<Account>) {
    forall i, j :: 0 <= i < j < |accounts| ==> accounts[i].id != accounts[j].id
  }

  /** With distinct ids, the to-account list is one shorter than the
      account list when the selected account is in it, and the whole list
      otherwise. */
  lemma {:induction false} ExcludeAccountCount(accounts: seq<Account>, accountId: string)
    requires DistinctIds(accounts)
    ensures (exists k :: 0 <= k < |accounts| && accounts[k].id == accountId) ==>
      |ExcludeAccount(accounts, accountId)| == |accounts| - 1
    ensures (forall k :: 0 <= k < |accounts| ==> accounts[k].id != accountId) ==>
      ExcludeAccount(accounts, accountId) == accounts
  {
    if accounts != [] {
      var tail := accounts[1..];
      assert DistinctIds(tail) by {
        forall i, j | 0 <= i < j < |tail|
          ensures tail[i].id != tail[j].id
        {
          assert tail[i] == accounts[i + 1] && tail[j] == accounts[j + 1];
        }
      }
      ExcludeAccountCount(tail, accountId);
      if accounts[0].id == accountId {
        forall k | 0 <= k < |tail|
          ensures tail[k].id != accountId
        {
          assert tail[k] == accounts[k + 1];
        }
      } else if exists k :: 0 <= k < |accounts| && accounts[k].id == accountId {
        var k :| 0 <= k < |accounts| && accounts[k].id == accountId;
        assert tail[k - 1].id == accountId;
      }
      assert [accounts[0]] + tail == accounts;
    }
  }

  /** A transaction loaded for editing, as the database returns it. */
  datatype EditTransaction = EditTransaction(
    kind: TxType,
    amount: Num,
    description: Option<string>,
    accountId: Option<string>,
    categoryId: Option<string>,
    toAccountId: Option<string>,
    date: string,
    notes: Option<string>)

  /** The state of the dialog. */
  class TransactionFormState {
    var kind: TxType
    var amount: string
    var description: string
    var accountId: string
    var categoryId: string
    var toAccountId: string
    var date: string
    var notes: string
    var accounts: seq<Account>
    var categories: seq<Category>

    /** The initial state: the default type, empty fields, and today's date
        (`new Date().toISOString().split("T")[0]`, the parameter today). */
    constructor (defaultType: TxType, today: string)
      ensures kind == defaultType && date == today
      ensures amount == "" && description == "" && accountId == "" && categoryId == ""
      ensures toAccountId == "" && notes == "" && accounts == [] && categories == []
    {
      kind := defaultType;
      amount := "";
      description := "";
      accountId := "";
      categoryId := "";
      toAccountId := "";
      date := today;
      notes := "";
      accounts := [];
      categories := [];
    }

    /** resetForm: clears amount, description, category, to-account and
        notes and sets the date to today; the type and the selected account
        are kept. */
    method ResetForm(today: string)
      modifies this
      ensures amount == "" && description == "" && categoryId == "" && toAccountId == "" && notes == ""
      ensures date == today
      ensures kind == old(kind) && accountId == old(accountId)
      ensures accounts == old(accounts) && categories == old(categories)
    {
      amount := "";
      description := "";
      categoryId := "";
      toAccountId := "";
      date := today;
      notes := "";
    }

    /** The part of fetchAccounts after the query: a list that came back
        replaces the accounts, and the first account becomes the selection
        when none is selected yet; a selection that exists is kept. No list
        changes nothing. */
    method LoadAccounts(data: Option<seq<Account>>)
      modifies this
      ensures data.Some? ==> accounts == data.value
      ensures data.None? ==> accounts == old(accounts)
      ensures old(accountId) != "" || data.None? || data.value == [] ==> accountId == old(accountId)
      ensures old(accountId) == "" && data.Some? && data.value != [] ==> accountId == data.value[0].id
      ensures accountId != "" && accountId != old(accountId) ==> exists a :: a in accounts && a.id == accountId
      ensures kind == old(kind) && amount == old(amount) && description == old(description)
      ensures categoryId == old(categoryId) && toAccountId == old(toAccountId) && date == old(date)
      ensures notes == old(notes) && categories == old(categories)
    {
      if data.Some? {
        accounts := data.value;
        if |data.value| > 0 && accountId == "" {
          accountId := data.value[0].id;
          assert data.value[0] in accounts;
        }
      }
    }

    /** The part of fetchCategories after the query: a list that came back
        replaces the categories. */
    method LoadCategories(data: Option<seq<Category>>)
      modifies this
      ensures categories == (if data.Some? then data.value else old(categories))
      ensures accounts == old(accounts) && kind == old(kind) && accountId == old(accountId)
      ensures amount == old(amount) && description == old(description) && categoryId == old(categoryId)
      ensures toAccountId == old(toAccountId) && date == old(date) && notes == old(notes)
    {
      if data.Some? {
        categories := data.value;
      }
    }

    /** The effect that runs when the transaction to edit or the default
        type changes: an edited transaction fills every field, a missing
        value becoming ""; without one the type goes back to the default
        and the form is reset. `amount.toString()` and
        `new Date(d).toISOString().split("T")[0]` are the parameters
        renderAmount and dateOnly. */
    method LoadEdit(
      edit: Option<EditTransaction>, defaultType: TxType, today: string,
      renderAmount: Num -> string, dateOnly: string -> string)
      modifies this
      ensures edit.Some? ==>
        var e := edit.value;
        && kind == e.kind && amount == renderAmount(e.amount) && description == OrEmpty(e.description)
        && accountId == OrEmpty(e.accountId) && categoryId == OrEmpty(e.categoryId)
        && toAccountId == OrEmpty(e.toAccountId) && date == dateOnly(e.date) && notes == OrEmpty(e.notes)
      ensures edit.None? ==>
        && kind == defaultType && accountId == old(accountId)
        && amount == "" && description == "" && categoryId == "" && toAccountId == "" && notes == ""
        && date == today
      ensures accounts == old(accounts) && categories == old(categories)
    {
      if edit.Some? {
        var e := edit.value;
        kind := e.kind;
        amount := renderAmount(e.amount);
        description := OrEmpty(e.description);
        accountId := OrEmpty(e.accountId);
        categoryId := OrEmpty(e.categoryId);
        toAccountId := OrEmpty(e.toAccountId);
        date := dateOnly(e.date);
        notes := OrEmpty(e.notes);
      } else {
        kind := defaultType;
        ResetForm(today);
      }
    }

    /** The category options for the current type. */
    function CategoryOptions(): (r: seq<Category>)
      reads this
      ensures forall c :: c in r <==> c in categories && c.kind == kind
    {
      FilteredCategories(categories, kind)
    }

    /** The to-account options: every account but the selected one. */
    function ToAccountOptions(): (r: seq<Account>)
      reads this
      ensures forall a :: a in r <==> a in accounts && a.id != accountId
    {
      ExcludeAccount(accounts, accountId)
    }

    /** handleSubmit: nothing happens without a tenant; otherwise the record
        is built from the form, and the form is reset when the database
        accepted it (saved). */
    method Submit(tenantId: Option<string>, toIso: string -> string, today: string, saved: bool)
      returns (payload: Option<TransactionPayload>)
      modifies this
      ensures tenantId.None? ==> payload.None?
      ensures tenantId.Some? ==> payload == Some(BuildPayload(
        tenantId.value, old(kind), old(amount), old(description), old(accountId),
        old(categoryId), old(toAccountId), old(date), old(notes), toIso))
      ensures tenantId.Some? && saved ==>
        amount == "" && description == "" && categoryId == "" && toAccountId == "" && notes == "" && date == today
      ensures tenantId.None? || !saved ==>
        amount == old(amount) && description == old(description) && categoryId == old(categoryId)
        && toAccountId == old(toAccountId) && notes == old(notes) && date == old(date)
      ensures kind == old(kind) && accountId == old(accountId)
      ensures accounts == old(accounts) && categories == old(categories)
    {
      if tenantId.None? {
        return None;
      }
      payload := Some(BuildPayload(tenantId.value, kind, amount, description, accountId,
        categoryId, toAccountId, date, notes, toIso));
      if saved {
        ResetForm(today);
      }
    }
  }
}
