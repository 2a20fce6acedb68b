/** The two checklist tables the assessment works on, the first-row lookup
    every per-id column read goes through, and the test that decides whether
    a primary row carries a question at all. */
module Catalogue {

  datatype Option<T> = None | Some(value: T)

  /** Values of the `ID` and `Primary Link` columns. */
  type Id = int

  /** One row of the primary table. `question` is `None` where the cell is
      missing, which is what a table reader reports as not-a-number. */
  datatype PrimaryRow = PrimaryRow(
    id: Id,
    question: Option<string>,
    category: string,
    weight: real,
    advice: string)

  /** One row of the secondary table: the primary id it links to and the
      follow-up question it suggests. `primaryLink` is `None` where the cell
      is missing; such a row is linked to no id. */
  datatype SecondaryRow = SecondaryRow(primaryLink: Option<Id>, question: string)

  predicate HasRow(primary: seq<PrimaryRow>, id: Id) {
    exists i :: 0 <= i < |primary| && primary[i].id == id
  }

  /** Index of the first row at or after `from` whose id is `id`. */
  function FindFrom(primary: seq<PrimaryRow>, id: Id, from: nat): (i: nat)
    requires exists k :: from <= k < |primary| && primary[k].id == id
    ensures from <= i < |primary| && primary[i].id == id
    ensures forall j :: from <= j < i ==> primary[j].id != id
    decreases |primary| - from
  {
    if primary[from].id == id then from else FindFrom(primary, id, from + 1)
  }

  /** `primary[primary['ID'] == id][...].values[0]`: the row that every
      column lookup by id reads is the first one, in table order, with that id. */
  function FindRow(primary: seq<PrimaryRow>, id: Id): (i: nat)
    requires HasRow(primary, id)
    ensures i < |primary| && primary[i].id == id
    ensures forall j :: 0 <= j < i ==> primary[j].id != id
  {
    FindFrom(primary, id, 0)
  }

  /** The characters Python's `str.strip()` removes: those for which
      `str.isspace()` holds. */
  predicate IsSpace(c: char) {
    || '\t' <= c <= '\r'
    || '\U{1C}' <= c <= '\U{1F}'
    || c == ' ' || c == '\U{85}' || c == '\U{A0}' || c == '\U{1680}'
    || '\U{2000}' <= c <= '\U{200A}'
    || c == '\U{2028}' || c == '\U{2029}' || c == '\U{202F}' || c == '\U{205F}'
    || c == '\U{3000}'
  }

  /** `s` with its leading white space removed. */
  function TrimStart(s: string): string {
    if s != [] && IsSpace(s[0]) then TrimStart(s[1..]) else s
  }

  /** `s` with its trailing white space removed. */
  function TrimEnd(s: string): string {
    if s != [] && IsSpace(s[|s| - 1]) then TrimEnd(s[..|s| - 1]) else s
  }

  /** Python's `str.strip()` with no argument: leading white space goes
      first, then trailing white space. */
  function Strip(s: string): string {
    TrimEnd(TrimStart(s))
  }

  /** `TrimStart` drops exactly the leading run of white space. */
  lemma {:induction false} TrimStartDropsLeadingSpace(s: string)
    ensures |TrimStart(s)| <= |s| && TrimStart(s) == s[|s| - |TrimStart(s)|..]
    ensures forall i :: 0 <= i < |s| - |TrimStart(s)| ==> IsSpace(s[i])
    ensures TrimStart(s) != [] ==> !IsSpace(TrimStart(s)[0])
  {
    if s != [] && IsSpace(s[0]) {
      var t := TrimStart(s[1..]);
      TrimStartDropsLeadingSpace(s[1..]);
      assert TrimStart(s) == t;
      assert s[1..][|s| - 1 - |t|..] == s[|s| - |t|..];
      forall i | 1 <= i < |s| - |t| ensures IsSpace(s[i]) {
        assert s[i] == s[1..][i - 1];
      }
    }
  }

  /** `TrimEnd` drops exactly the trailing run of white space. */
  lemma {:induction false} TrimEndDropsTrailingSpace(s: string)
    ensures |TrimEnd(s)| <= |s| && TrimEnd(s) == s[..|TrimEnd(s)|]
    ensures forall i :: |TrimEnd(s)| <= i < |s| ==> IsSpace(s[i])
    ensures TrimEnd(s) != [] ==> !IsSpace(TrimEnd(s)[|TrimEnd(s)| - 1])
  {
    if s != [] && IsSpace(s[|s| - 1]) {
      TrimEndDropsTrailingSpace(s[..|s| - 1]);
    }
  }

  /** A string strips to nothing exactly when every character is white space. */
  lemma StripEmptyIffAllSpace(s: string)
    ensures Strip(s) == [] <==> forall i :: 0 <= i < |s| ==> IsSpace(s[i])
  {
    var t := TrimStart(s);
    TrimStartDropsLeadingSpace(s);
    TrimEndDropsTrailingSpace(t);
  }

  /** `pd.isna(q) or str(q).strip() == ""`: the rows the questionnaire skips. */
  predicate IsBlank(q: Option<string>) {
    q.None? || Strip(q.value) == []
  }

  lemma BlankIffMissingOrWhiteSpace(q: Option<string>)
    ensures IsBlank(q) <==> (q.None? || forall i :: 0 <= i < |q.value| ==> IsSpace(q.value[i]))
  {
    if q.Some? {
      StripEmptyIffAllSpace(q.value);
    }
  }
}
