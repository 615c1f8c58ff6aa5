/** The OpenStreetMap entities the store persists: nodes, ways and relations,
    each with metadata and tags. Every field the C# objects keep as a nullable
    value is an `Option` here. */
module Osm {
  import opened Wrappers

  /** The `OsmGeoType` enumeration. */
  datatype OsmGeoType = NodeType | WayType | RelationType

  /** The integer behind each enumeration value, as `(int)type` gives it. */
  function TypeCode(t: OsmGeoType): (code: int)
    ensures 0 <= code <= 2
    // distinct values have distinct integers, so the stored code identifies the type
    ensures code == 0 <==> t == NodeType
    ensures code == 1 <==> t == WayType
    ensures code == 2 <==> t == RelationType
  {
    match t
    case NodeType => 0
    case WayType => 1
    case RelationType => 2
  }

  datatype Tag = Tag(key: string, value: string)

  /** A relation member. `memberType` holds the enumeration's integer value:
      the cast `(OsmGeoType)code` keeps whatever integer it is given. */
  datatype RelationMember = RelationMember(id: int, role: string, memberType: int)

  /** The metadata every entity carries; timestamps are seconds since the epoch. */
  datatype Meta = Meta(
    id: Option<int>,
    version: Option<int>,
    changeSetId: Option<int>,
    timeStamp: Option<int>,
    userId: Option<int>,
    userName: Option<string>,
    visible: Option<bool>)

  const EmptyMeta := Meta(None, None, None, None, None, None, None)

  /** Latitude and longitude are kept as integers in units of 10^-7 degree,
      the scaling the store uses on disk. */
  datatype OsmGeo =
    | Node(meta: Meta, tags: Option<seq<Tag>>, latitude: Option<int>, longitude: Option<int>)
    | Way(meta: Meta, tags: Option<seq<Tag>>, nodes: Option<seq<int>>)
    | Relation(meta: Meta, tags: Option<seq<Tag>>, members: Option<seq<RelationMember>>)
  {
    function GeoType(): OsmGeoType {
      match this
      case Node(_, _, _, _) => NodeType
      case Way(_, _, _) => WayType
      case Relation(_, _, _) => RelationType
    }
  }

  datatype OsmGeoKey = OsmGeoKey(keyType: OsmGeoType, id: int)

  /** The exceptions the core raises. */
  datatype Error =
    | InvalidSequence(ownerId: int)   // "Invalid sequence found in way_nodes/relation_members"
    | NullableWithoutValue            // `.Value` read on a nullable that holds none
    | ArgumentNull                    // ArgumentNullException
    | ArgumentInvalid                 // ArgumentException
    | ArgumentOutOfRange              // ArgumentOutOfRangeException
    | NoCurrentObject                 // "No current object available."
    | NoActiveRow                     // a column read on a reader that is not on a row
    | SqlFailure                      // the engine rejected the statement
}
