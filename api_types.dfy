/** Values exchanged with the Compute API's list and aggregated-list calls.

    The enumerators read JSON-shaped responses through Python's `dict.get` and
    `dict[...]`. A member of such a dict is in one of three states: absent,
    present but JSON `null`, or present with a value. `Option<Nullable<T>>`
    spells out exactly those three states: `None`, `Some(Null)`, `Some(Value(v))`.
 */
module ApiTypes {

  datatype Option<+T> = None | Some(value: T)

  /** A JSON member that is present: either `null` or a real value. */
  datatype Nullable<+T> = Null | Value(value: T)

  /** One resource as returned by the API (an instance, an image, a firewall
      rule, ...). Only the `name` member is ever looked at, by the firewall
      enumerator; every other member is carried along unread. */
  datatype Record = Record(name: Option<Nullable<string>>, others: map<string, string>)

  /** The per-scope envelope of an aggregated listing (a zone's or a region's
      "scoped list"), keyed by member name: "instances", "disks",
      "addresses", "subnetworks", ... Only its record-list members are
      represented; others, such as "warning", are not. */
  datatype Envelope = Envelope(members: map<string, Nullable<seq<Record>>>)

  /** The scope-label -> envelope dict of an aggregated listing, in the
      insertion order in which Python iterates it. */
  type Scopes = seq<(string, Envelope)>

  /** One response body; only its "items" member is read by the enumerators.
      `R` is `seq<Record>` for flat listings and `Scopes` for aggregated ones. */
  datatype Response<R> = Response(items: Option<Nullable<R>>)

  /** `dict.get(key, None)` on an envelope. */
  function Member(env: Envelope, key: string): Option<Nullable<seq<Record>>>
  {
    if key in env.members then Some(env.members[key]) else None
  }
}
