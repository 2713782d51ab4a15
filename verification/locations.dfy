/**
 * The authored tour records (Location/LocationData.cs). Engine assets
 * (skybox material, ambience clip, sprites) and world positions play no
 * part in navigation or interaction and are not represented.
 */
module Locations {
  /** An information point: the text shown in the info panel. */
  datatype HotspotData = HotspotData(title: string, information: string)

  /** A navigation point: a label and the index of the location it leads to. */
  datatype NavigationData = NavigationData(destinationName: string, destinationLocationIndex: int)

  /** One panoramic location with its two hotspot lists. */
  datatype LocationData = LocationData(
    locationName: string,
    description: string,
    infoHotspots: seq<HotspotData>,
    navigationPoints: seq<NavigationData>)

  /** LocationDataSO: the ordered list of locations of the tour. */
  datatype LocationDatabase = LocationDatabase(locations: seq<LocationData>)
}
