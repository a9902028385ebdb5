/** apps/plagiarism/models.py: PlagiarismSettings, a table kept to the single row id=1 that
    holds the similarity threshold and the report retention period. */
module Settings {

  /** A PlagiarismSettings row (updated_at is left out). */
  datatype SettingsRow = SettingsRow(id: int, threshold: int, autoDeleteDays: int)

  const DefaultThreshold: int := 75
  const DefaultAutoDeleteDays: int := 30

  /** The row get_or_create(id=1, defaults=...) makes when there is none. */
  const DefaultRow: SettingsRow := SettingsRow(1, DefaultThreshold, DefaultAutoDeleteDays)

  /** The row get_or_create(id=1, ...) finds or makes. */
  function Current(rows: map<int, SettingsRow>): (s: SettingsRow)
    ensures 1 in rows ==> s == rows[1]
    ensures 1 !in rows ==> s.threshold == 75 && s.autoDeleteDays == 30
  {
    if 1 in rows then rows[1] else DefaultRow
  }

  /** At most one row exists, and it is the row with id 1. */
  predicate SingleRow(rows: map<int, SettingsRow>) {
    forall k :: k in rows ==> k == 1 && rows[k].id == 1
  }

  class SettingsTable {
    var rows: map<int, SettingsRow>

    predicate Valid()
      reads this
    {
      SingleRow(rows)
    }

    constructor()
      ensures rows == map[] && Valid()
    {
      rows := map[];
    }

    /** get_or_create(id=1, defaults={'similarity_threshold': 75, 'auto_delete_days': 30}). */
    method GetOrCreate() returns (s: SettingsRow)
      requires Valid()
      modifies this
      ensures s == Current(old(rows)) && rows == old(rows)[1 := s] && Valid()
    {
      if 1 in rows {
        s := rows[1];
      } else {
        s := DefaultRow;
        rows := rows[1 := s];
      }
    }

    /** get_threshold. */
    method GetThreshold() returns (t: int)
      requires Valid()
      modifies this
      ensures t == Current(old(rows)).threshold && rows == old(rows)[1 := Current(old(rows))] && Valid()
    {
      var s := GetOrCreate();
      t := s.threshold;
    }

    /** get_auto_delete_days. */
    method GetAutoDeleteDays() returns (d: int)
      requires Valid()
      modifies this
      ensures d == Current(old(rows)).autoDeleteDays && rows == old(rows)[1 := Current(old(rows))] && Valid()
    {
      var s := GetOrCreate();
      d := s.autoDeleteDays;
    }

    /** save: the instance's id is forced to 1 before it is written, so it replaces the one
        row, and both getters then return what was saved. */
    method Save(s: SettingsRow)
      requires Valid()
      modifies this
      ensures rows == old(rows)[1 := s.(id := 1)] && Valid()
      ensures Current(rows).threshold == s.threshold && Current(rows).autoDeleteDays == s.autoDeleteDays
    {
      var row := s.(id := 1);
      rows := rows[1 := row];
    }

    /** delete does nothing: the row can never be removed. */
    method Delete()
      ensures rows == old(rows)
    {
    }
  }

  /** Whatever was saved last is what a later read returns, and no row other than id 1 can
      appear. */
  lemma SaveThenRead(rows: map<int, SettingsRow>, s: SettingsRow)
    requires SingleRow(rows)
    ensures SingleRow(rows[1 := s.(id := 1)])
    ensures Current(rows[1 := s.(id := 1)]) == s.(id := 1)
  {
  }

  /** Reading twice gives the same value: the first read makes the row the second finds. */
  lemma ReadTwice(rows: map<int, SettingsRow>)
    ensures Current(rows[1 := Current(rows)]) == Current(rows)
  {
  }
}
