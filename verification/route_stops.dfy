/** What a vehicle does at a stop. */
module RouteStops {
  datatype RouteStop = Pickup(order: nat) | Delivery(order: nat)
}
