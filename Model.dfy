/**
 * The value types of the pick event model: pick requests as parsed from the
 * input, the pickers and articles they refer to, and the derived response
 * documents. Timestamps are instants on a single time line (an int).
 */
module Model {
  import JavaStrings

  /** Either a value or nothing; for a Java reference, None is null. */
  datatype Option<+T> = None | Some(value: T)

  /** An instant in time; ZonedDateTime values are compared by instant. */
  type Instant = int

  datatype TemperatureZone = Ambient | Chilled

  datatype Article = Article(id: string, name: string, temperatureZone: TemperatureZone)

  /**
   * A picker. Its identity, for equals and hashCode, is its id alone: two
   * pickers with the same id are the same picker whatever their name or
   * activeSince.
   */
  datatype Picker = Picker(id: string, name: string, activeSince: Instant) {

    /**
     * Picker.equals(o). None stands for null and for an object of another
     * class, both of which are never equal to a picker.
     */
    predicate Equals(o: Option<Picker>): (r: bool)
      ensures o == Some(this) ==> r
      ensures o == None ==> !r
      ensures r ==> o.Some? && o.value.id == id
    {
      match o
      case None => false
      case Some(other) => id == other.id
    }

    /** Picker.hashCode: Objects.hash(id), that is 31 * 1 + id.hashCode(). */
    function HashCode(): (h: int)
      ensures JavaStrings.IsInt32(h)
    {
      JavaStrings.Wrap32(31 + JavaStrings.HashCode(id))
    }
  }

  datatype PickRequest = PickRequest(id: string, timestamp: Instant, picker: Picker, article: Article, quantity: int)

  datatype PickResponse = PickResponse(name: string, timestamp: Instant)

  datatype PickerWithPicks = PickerWithPicks(name: string, activeSince: Instant, picks: seq<PickResponse>)

  /** The key on which picks are grouped: the picker's id. */
  function GroupingKey(p: Picker): string {
    p.id
  }

  /** Equality of pickers is equality of their grouping keys. */
  lemma KeyEquivalenceIsEquals(p: Picker, q: Picker)
    ensures p.Equals(Some(q)) <==> GroupingKey(p) == GroupingKey(q)
  {
  }

  /** Name and activeSince play no part in equality. */
  lemma EqualsIgnoresNameAndActiveSince(p: Picker, name: string, activeSince: Instant)
    ensures p.Equals(Some(Picker(p.id, name, activeSince)))
  {
  }

  /** No picker equals null. */
  lemma EqualsNull(p: Picker)
    ensures !p.Equals(None)
  {
  }

  /** equals is reflexive, symmetric and transitive. */
  lemma EqualsIsEquivalence(p: Picker, q: Picker, r: Picker)
    ensures p.Equals(Some(p))
    ensures p.Equals(Some(q)) ==> q.Equals(Some(p))
    ensures p.Equals(Some(q)) && q.Equals(Some(r)) ==> p.Equals(Some(r))
  {
  }

  /** Equal pickers have equal hash codes (the contract HashMap relies on). */
  lemma HashCodeConsistentWithEquals(p: Picker, q: Picker)
    requires p.Equals(Some(q))
    ensures p.HashCode() == q.HashCode()
  {
  }

  /** Pickers with different ids differ even when name and activeSince agree. */
  lemma DifferentIdsAreDifferentPickers(p: Picker, q: Picker)
    requires p.id != q.id
    ensures !p.Equals(Some(q)) && !q.Equals(Some(p))
  {
  }
}
