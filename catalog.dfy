/** The columns of the catalog tables that the modelled code reads or writes. */
module Catalog {
  import opened Common

  /** A depth_one_maps row, reduced to what the coverage and reset code read. The
      original code reads the raster path as mean_time_path. */
  datatype DepthOneMap = DepthOneMap(mapId: int, meanTimePath: Option<string>, ctime: real)

  /** A time_domain_processing row. */
  datatype ProcessingEntry = ProcessingEntry(
    id: int,
    mapId: int,
    processingStart: Option<real>,
    processingEnd: Option<real>,
    processingStatus: string)

  /** A TOD row with the map_ids of its linked depth-1 maps, in link order. */
  datatype TodRow = TodRow(obsId: string, maps: seq<int>)
}
