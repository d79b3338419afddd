/**
 * The two persisted entities, a pothole and a report about it, as values. An id is absent
 * (`None`) until the store assigns one; timestamps are abstract instants.
 */
module Entities {
  import opened Wrappers

  /** A point given by latitude and longitude in degrees. */
  datatype Coord = Coord(latitude: real, longitude: real)

  /**
   * The distance in metres that the radius query evaluates in the database. Its formula is
   * floating-point trigonometry and is not part of this model; only the properties a lemma
   * states in its `requires` are assumed of it.
   */
  type Distance = (Coord, Coord) -> real

  /** A pothole: one physical defect, located where it was first reported. */
  datatype Pothole = Pothole(
    id: Option<int>,
    latitude: real,
    longitude: real,
    description: string,
    imageUrl: Option<string>,
    address: Option<string>,
    createdAt: int,
    updatedAt: int)
  {
    function Position(): Coord {
      Coord(latitude, longitude)
    }
  }

  /** A citizen's report, owned by exactly one pothole (`potholeId`). */
  datatype Report = Report(
    id: Option<int>,
    latitude: real,
    longitude: real,
    address: string,
    imageUrls: seq<string>,
    description: Option<string>,
    potholeId: int,
    createdAt: int,
    updatedAt: int)
  {
    function Position(): Coord {
      Coord(latitude, longitude)
    }
  }

  /** The sort key of `ORDER BY createdAt DESC`: newer first means a smaller key. */
  function PotholeNewestKey(p: Pothole): real {
    -(p.createdAt as real)
  }

  function ReportNewestKey(r: Report): real {
    -(r.createdAt as real)
  }
}
