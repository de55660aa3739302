/** seed_alternative_medicines: the fixed reference rows and the effect of
    seeding on the AlternativeMedicine table. */
module Seeder {
  import opened Tables
  import opened Schema

  /** The six reference rows, in the order the seeder adds them. */
  const SeedData: seq<AlternativeFields> := [
    AlternativeFields("Fever", "Paracetamol", "Dolo-650"),
    AlternativeFields("Fever", "Paracetamol", "Crocin"),
    AlternativeFields("Cold", "Cetirizine", "Levocetirizine"),
    AlternativeFields("Headache", "Paracetamol", "Ibuprofen"),
    AlternativeFields("Diabetes", "Metformin", "Glimepiride"),
    AlternativeFields("Hypertension", "Amlodipine", "Losartan")
  ]

  /** The table after seeding: the six rows added to an empty table, any other table left as it is. */
  function Seed(t: seq<AlternativeMedicine>): seq<AlternativeMedicine>
  {
    if |t| == 0 then InsertAll(t, SeedData) else t
  }

  /** Seeding an empty table yields exactly the six reference rows, under distinct ids. */
  lemma SeedEmpty(t: seq<AlternativeMedicine>)
    requires t == []
    ensures Fields(Seed(t)) == SeedData
    ensures UniqueIds(Seed(t))
  {
    InsertAllSpec(t, SeedData);
    assert Fields(t) == [];
  }

  /** Seeding twice is seeding once. */
  lemma SeedIdempotent(t: seq<AlternativeMedicine>)
    ensures Seed(Seed(t)) == Seed(t)
  {
    InsertAllSpec(t, SeedData);
  }
}
