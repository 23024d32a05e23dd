/**
  One fuel-price observation as the loader hands it to the dashboard. Beside
  each field read by the dashboard is the JavaScript property it reads.
*/
module Records {

  datatype Record = Record(
    semester: string,   // `semestre`, a half-year label such as "2023S1"
    product: string,    // `produto`, the fuel
    price: real,        // the sale price ("Valor de Venda"), read by no modelled operation
    region: string,     // `regional`, the city district
    brand: string,      // `bandeira`, the station's brand
    stationId: string   // `cnpjDaRevenda`, the station's registration number
  )

  /** The region label the loader gives to records it could not place. */
  const Unidentified: string := "Não Identificada"

  // The record fields as functions, for the key-based helpers.
  function SemesterOf(d: Record): string { d.semester }
  function ProductOf(d: Record): string { d.product }
  function RegionOf(d: Record): string { d.region }
  function BrandOf(d: Record): string { d.brand }
  function StationOf(d: Record): string { d.stationId }
}
